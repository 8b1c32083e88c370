/**
 Where a node is reached.  The router keeps the address it first added a node with;
 the member table takes every newer one.  When the two agree, step by step and over
 whole runs.
 */
module Addresses {
  import opened Text
  import opened Nodes
  import opened Routers
  import opened Membership
  import opened Gossip
  import Events

  /** A node on the ring is at the address the member table has for it. */
  predicate Agree(n: NodeState, id: string) {
    id in n.router.nodes && id in n.swim.view.members && n.router.nodes[id] == n.swim.view.members[id].info
  }

  // -------------------------------------------------------------------------
  // The router
  // -------------------------------------------------------------------------

  /** The node is on the ring where it was before. */
  predicate SameAddress(before: RouterState, after: RouterState, id: string)
    requires id in before.nodes
  {
    id in after.nodes && after.nodes[id] == before.nodes[id]
  }

  lemma NoticeKeepsAddress(hash: string -> nat, router: RouterState, nt: Notice, id: string)
    requires id in router.nodes
    ensures SameAddress(router, OnNotice(hash, router, nt), id) || (nt.state.Left? && nt.info.nodeId == id)
  {
  }

  lemma NoNotice(hash: string -> nat, router: RouterState)
    ensures OnNotices(hash, router, []) == router
  {
  }

  lemma DeliverKeepsAddress(hash: string -> nat, v: View, router: RouterState, ev: Event, now: nat, id: string)
    requires id in router.nodes && WellFormed(v)
    ensures
      var o := Deliver(v, ev, now);
      SameAddress(router, OnNotices(hash, router, o.fired), id) || Gone(o.view, id)
  {
    hide Added, Removed, Wins;
    var o := Deliver(v, ev, now);
    if o.fired != [] {
      assert |o.fired| == 1;
      assert o.fired == [o.fired[0]];
      OneNotice(hash, router, o.fired[0]);
      NoticeKeepsAddress(hash, router, o.fired[0], id);
      if ev.nodeId != v.self.nodeId { DeliverAnnounces(v, ev, now); }
    } else {
      NoNotice(hash, router);
    }
  }

  lemma JoinKeepsAddress(hash: string -> nat, n: NodeState, ev: Event, id: string)
    requires id in n.router.nodes
    ensures SameAddress(n.router, NodeApply(hash, n, OpJoin(ev)).router, id)
  {
    hide Added, Removed, Events.ValidId;
    var fired := HandleJoin(n.swim, ev).fired;
    if fired != [] {
      assert fired == [fired[0]] && fired[0].state.Alive?;
      OneNotice(hash, n.router, fired[0]);
      NoticeKeepsAddress(hash, n.router, fired[0], id);
    } else {
      NoNotice(hash, n.router);
    }
  }

  lemma LeaveKeepsAddress(hash: string -> nat, n: NodeState, left: string, id: string)
    requires id in n.router.nodes && WellFormed(n.swim.view)
    ensures
      var t := NodeApply(hash, n, OpLeave(left));
      SameAddress(n.router, t.router, id) || Gone(t.swim.view, id)
  {
    hide Added, Removed;
    var fired := LeaveNode(n.swim, left).fired;
    if fired != [] {
      assert fired == [fired[0]] && fired[0].info.nodeId == left;
      OneNotice(hash, n.router, fired[0]);
      NoticeKeepsAddress(hash, n.router, fired[0], id);
    } else {
      NoNotice(hash, n.router);
    }
  }

  lemma ReceiveIsDeliver(s: SwimState, ev: Event, now: nat)
    ensures
      var r, o := Receive(s, ev, now), Deliver(s.view, ev, now);
      if Events.ValidId(ev.nodeId) then r.state.view == o.view && r.fired == o.fired
      else r.state == s && r.fired == []
  {
    hide Deliver, Events.ValidId;
  }

  lemma ReceiveKeepsAddress(hash: string -> nat, n: NodeState, ev: Event, now: nat, id: string)
    requires id in n.router.nodes && WellFormed(n.swim.view)
    ensures
      var t := NodeApply(hash, n, OpReceive(ev, now));
      SameAddress(n.router, t.router, id) || Gone(t.swim.view, id)
  {
    hide Deliver, Receive, Gone, Events.ValidId;
    ReceiveIsDeliver(n.swim, ev, now);
    NoNotice(hash, n.router);
    if Events.ValidId(ev.nodeId) { DeliverKeepsAddress(hash, n.swim.view, n.router, ev, now, id); }
  }

  /** A step leaves a node on the ring where it is, or knows it departed. */
  lemma StepKeepsAddress(hash: string -> nat, n: NodeState, op: Op, id: string)
    requires InStep(n.swim.view, n.router) && id in n.router.nodes
    ensures
      var t := NodeApply(hash, n, op);
      SameAddress(n.router, t.router, id) || Gone(t.swim.view, id)
  {
    hide Receive, HandleJoin, LeaveNode, ConfirmDead, ExpireAll, Coherent, Gone;
    if AboutHealth(op) {
      HealthKeepsRouter(hash, n, op);
    } else {
      match op
      case OpReceive(ev, now) => ReceiveKeepsAddress(hash, n, ev, now, id);
      case OpJoin(ev) => JoinKeepsAddress(hash, n, ev, id);
      case OpLeave(left) => LeaveKeepsAddress(hash, n, left, id);
    }
  }

  /** Over a run a node on the ring stays where it is, until it is known to have departed. */
  lemma {:induction false} KeptOrGone(hash: string -> nat, n: NodeState, ops: seq<Op>, id: string)
    requires InStep(n.swim.view, n.router) && id in n.router.nodes
    ensures
      var t := NodeRun(hash, n, ops);
      SameAddress(n.router, t.router, id) || Gone(t.swim.view, id)
    decreases |ops|
  {
    hide InStep, Apply, Gone, OnNotices, ViewBelow;
    if ops != [] {
      var m, op := NodeRun(hash, n, ops[..|ops| - 1]), ops[|ops| - 1];
      KeptOrGone(hash, n, ops[..|ops| - 1], id);
      RunKeepsStep(hash, n, ops[..|ops| - 1]);
      if Gone(m.swim.view, id) {
        ApplyUp(m.swim, op);
        GoneStays(m.swim.view, Apply(m.swim, op).state.view, id);
      } else {
        StepKeepsAddress(hash, m, op, id);
      }
    }
  }

  lemma OnRingNotGone(n: NodeState, id: string)
    requires InStep(n.swim.view, n.router) && id in n.router.nodes
    ensures !Gone(n.swim.view, id) && (id == n.swim.view.self.nodeId || id in n.swim.view.members)
  {
  }

  /** A node on the ring at both ends of a run is at the same address at both. */
  lemma RunKeepsAddress(hash: string -> nat, n: NodeState, ops: seq<Op>, id: string)
    requires InStep(n.swim.view, n.router) && id in n.router.nodes && id in NodeRun(hash, n, ops).router.nodes
    ensures NodeRun(hash, n, ops).router.nodes[id] == n.router.nodes[id]
  {
    hide InStep, NodeRun, Gone;
    KeptOrGone(hash, n, ops, id);
    RunKeepsStep(hash, n, ops);
    OnRingNotGone(NodeRun(hash, n, ops), id);
  }

  // -------------------------------------------------------------------------
  // The member table
  // -------------------------------------------------------------------------

  predicate OfLife(k: Events.Kind) { k.Alive? || k.Join? }

  /**
   The address an operation gives `id`: that of the event it first hears of the node
   by, and of any accepted news of life that carries one.
   */
  function NewAddress(v: View, op: Op, id: string): Option<NodeInfo> {
    var held := Lookup(v, id);
    match op
    case OpReceive(ev, _) =>
      if ev.nodeId == id && Events.ValidId(id) && Wins(ev, held) && (held.None? || (OfLife(ev.kind) && ev.host != ""))
      then Some(NodeInfo(id, ev.host, ev.port)) else None
    case OpJoin(ev) =>
      if ev.nodeId == id && Events.ValidId(id) && (held.None? || (!held.value.state.Left? && ev.host != ""))
      then Some(NodeInfo(id, ev.host, ev.port)) else None
    case _ => None
  }

  /** What the table has for `id` after an operation, in terms of what it had before. */
  predicate Updated(v: View, w: View, id: string, a: Option<NodeInfo>) {
    if a.Some? then id in w.members && w.members[id].info == a.value
    else (id in w.members <==> id in v.members) && (id in v.members ==> w.members[id].info == v.members[id].info)
  }

  lemma DeliverUpdates(v: View, ev: Event, now: nat, id: string)
    requires WellFormed(v) && id != v.self.nodeId && Events.ValidId(ev.nodeId)
    ensures Updated(v, Deliver(v, ev, now).view, id, NewAddress(v, OpReceive(ev, now), id))
  {
    hide Events.ValidId;
  }

  lemma ReceiveUpdates(s: SwimState, ev: Event, now: nat, id: string)
    requires WellFormed(s.view) && id != s.view.self.nodeId
    ensures Updated(s.view, Receive(s, ev, now).state.view, id, NewAddress(s.view, OpReceive(ev, now), id))
  {
    hide Receive, Deliver, Events.ValidId, Wins;
    ReceiveIsDeliver(s, ev, now);
    if Events.ValidId(ev.nodeId) { DeliverUpdates(s.view, ev, now, id); }
  }

  lemma JoinUpdates(s: SwimState, ev: Event, id: string)
    requires WellFormed(s.view) && id != s.view.self.nodeId
    ensures Updated(s.view, HandleJoin(s, ev).state.view, id, NewAddress(s.view, OpJoin(ev), id))
  {
    hide Events.ValidId;
  }

  lemma {:induction false} ExpireUpdates(s: SwimState, ids: seq<string>, now: nat, timeout: nat, id: string)
    ensures Updated(s.view, ExpireAll(s, ids, now, timeout).state.view, id, None)
    decreases |ids|
  {
    if ids != [] { ExpireUpdates(s, ids[..|ids| - 1], now, timeout, id); }
  }

  lemma OtherUpdates(s: SwimState, op: Op, id: string)
    requires !op.OpReceive? && !op.OpJoin? && !op.OpExpire?
    ensures Updated(s.view, Apply(s, op).state.view, id, None)
  {
  }

  lemma ApplyUpdates(s: SwimState, op: Op, id: string)
    requires WellFormed(s.view) && id != s.view.self.nodeId
    ensures Updated(s.view, Apply(s, op).state.view, id, NewAddress(s.view, op, id))
  {
    hide Receive, HandleJoin, ExpireAll, Updated;
    match op
    case OpReceive(ev, now) => ReceiveUpdates(s, ev, now, id);
    case OpJoin(ev) => JoinUpdates(s, ev, id);
    case OpExpire(ids, now, timeout) => ExpireUpdates(s, ids, now, timeout, id);
    case _ => OtherUpdates(s, op, id);
  }

  /** The newest address a run gives `id`. */
  function Newest(s: SwimState, ops: seq<Op>, id: string): Option<NodeInfo> {
    if ops == [] then None
    else
      var a := NewAddress(Run(s, ops[..|ops| - 1]).view, ops[|ops| - 1], id);
      if a.Some? then a else Newest(s, ops[..|ops| - 1], id)
  }

  /** The table ends with the newest address. */
  lemma {:induction false} RunUpdates(hash: string -> nat, n: NodeState, ops: seq<Op>, id: string)
    requires InStep(n.swim.view, n.router) && id != n.swim.view.self.nodeId
    ensures Updated(n.swim.view, Run(n.swim, ops).view, id, Newest(n.swim, ops, id))
    ensures Run(n.swim, ops).view.self == n.swim.view.self
    decreases |ops|
  {
    hide Apply, NewAddress, InStep;
    if ops != [] {
      var init := ops[..|ops| - 1];
      RunUpdates(hash, n, init, id);
      RunKeepsStep(hash, n, init);
      RunAgrees(hash, n, init);
      InStepWellFormed(NodeRun(hash, n, init));
      ApplyUpdates(Run(n.swim, init), ops[|ops| - 1], id);
      ApplyUp(Run(n.swim, init), ops[|ops| - 1]);
    }
  }

  lemma InStepWellFormed(n: NodeState)
    requires InStep(n.swim.view, n.router)
    ensures WellFormed(n.swim.view)
  {
  }

  // -------------------------------------------------------------------------
  // When they agree
  // -------------------------------------------------------------------------

  /** The address in question, if any, is the one given. */
  predicate Matches(a: Option<NodeInfo>, info: NodeInfo, otherwise: bool) {
    if a.Some? then a.value == info else otherwise
  }

  lemma NoticeAdds(hash: string -> nat, router: RouterState, nt: Notice, id: string)
    requires id !in router.nodes && id in OnNotice(hash, router, nt).nodes
    ensures nt.state.Alive? && nt.info.nodeId == id && OnNotice(hash, router, nt).nodes[id] == nt.info
  {
  }

  lemma ReceiveAdds(hash: string -> nat, n: NodeState, ev: Event, now: nat, id: string)
    requires WellFormed(n.swim.view) && id != n.swim.view.self.nodeId
    requires id !in n.router.nodes && id in NodeApply(hash, n, OpReceive(ev, now)).router.nodes
    ensures Agree(NodeApply(hash, n, OpReceive(ev, now)), id)
  {
    hide Receive, Wins, Events.ValidId, OnNotice;
    ReceiveIsDeliver(n.swim, ev, now);
    NoNotice(hash, n.router);
    var o := Deliver(n.swim.view, ev, now);
    assert o.fired == [o.fired[0]];
    OneNotice(hash, n.router, o.fired[0]);
    NoticeAdds(hash, n.router, o.fired[0], id);
  }

  lemma JoinAdds(hash: string -> nat, n: NodeState, ev: Event, id: string)
    requires WellFormed(n.swim.view) && id != n.swim.view.self.nodeId
    requires id !in n.router.nodes && id in NodeApply(hash, n, OpJoin(ev)).router.nodes
    ensures Agree(NodeApply(hash, n, OpJoin(ev)), id)
  {
    hide Events.ValidId, OnNotice;
    NoNotice(hash, n.router);
    var fired := HandleJoin(n.swim, ev).fired;
    assert fired == [fired[0]];
    OneNotice(hash, n.router, fired[0]);
    NoticeAdds(hash, n.router, fired[0], id);
  }

  /** A departure puts nobody on the ring. */
  lemma LeaveAdds(hash: string -> nat, n: NodeState, left: string, id: string)
    requires id !in n.router.nodes
    ensures id !in NodeApply(hash, n, OpLeave(left)).router.nodes
  {
    NoNotice(hash, n.router);
    var fired := LeaveNode(n.swim, left).fired;
    if fired != [] {
      assert fired == [fired[0]] && fired[0].state.Left?;
      OneNotice(hash, n.router, fired[0]);
    }
  }

  /** A node put on the ring is put there at the address the table has for it. */
  lemma AddedAgrees(hash: string -> nat, n: NodeState, op: Op, id: string)
    requires InStep(n.swim.view, n.router) && id != n.swim.view.self.nodeId
    requires id !in n.router.nodes && id in NodeApply(hash, n, op).router.nodes
    ensures Agree(NodeApply(hash, n, op), id)
  {
    hide NodeApply, InStep, Agree;
    InStepWellFormed(n);
    if AboutHealth(op) {
      HealthKeepsRouter(hash, n, op);
    } else {
      match op
      case OpReceive(ev, now) => ReceiveAdds(hash, n, ev, now, id);
      case OpJoin(ev) => JoinAdds(hash, n, ev, id);
      case OpLeave(left) => LeaveAdds(hash, n, left, id);
    }
  }

  /**
   The step condition, to be read off before the step: router and table agree about a
   node on the ring afterwards exactly when the address the step gives it is the one
   the router has, or it gives none and they agreed before.
   */
  lemma StepAgreesIff(hash: string -> nat, n: NodeState, op: Op, id: string)
    requires InStep(n.swim.view, n.router) && id != n.swim.view.self.nodeId
    requires id in n.router.nodes && id in NodeApply(hash, n, op).router.nodes
    ensures Agree(NodeApply(hash, n, op), id) <==>
            Matches(NewAddress(n.swim.view, op, id), n.router.nodes[id], Agree(n, id))
  {
    hide Apply, OnNotices, NewAddress, InStep, Gone;
    var t := NodeApply(hash, n, op);
    StepKeepsAddress(hash, n, op, id);
    ApplyKeepsStep(hash, n, op);
    OnRingNotGone(t, id);
    OnRingNotGone(n, id);
    InStepWellFormed(n);
    ApplyUpdates(n.swim, op, id);
    ApplyUp(n.swim, op);
  }

  /** For accepted news of life about a node on the ring: exactly when the entry it leaves has the router's address. */
  lemma RelayedAgreesIff(hash: string -> nat, n: NodeState, ev: Event, now: nat)
    requires InStep(n.swim.view, n.router) && ev.nodeId != n.swim.view.self.nodeId && Events.ValidId(ev.nodeId)
    requires OfLife(ev.kind) && Wins(ev, Lookup(n.swim.view, ev.nodeId)) && ev.nodeId in n.router.nodes
    ensures Agree(NodeApply(hash, n, OpReceive(ev, now)), ev.nodeId) <==>
            Adopted(ev, Lookup(n.swim.view, ev.nodeId), now).info == n.router.nodes[ev.nodeId]
  {
    hide Events.ValidId, Coherent, Placed;
    var held := Lookup(n.swim.view, ev.nodeId);
    var fired := FiredBy(ev, held, now);
    assert fired == [fired[0]];
    OneNotice(hash, n.router, fired[0]);
  }

  /** The same for a direct join that is not refused. */
  lemma JoinAgreesIff(hash: string -> nat, n: NodeState, ev: Event)
    requires InStep(n.swim.view, n.router) && ev.nodeId != n.swim.view.self.nodeId && Events.ValidId(ev.nodeId)
    requires !Gone(n.swim.view, ev.nodeId) && ev.nodeId in n.router.nodes
    ensures Agree(NodeApply(hash, n, OpJoin(ev)), ev.nodeId) <==>
            Joined(ev, Lookup(n.swim.view, ev.nodeId)).info == n.router.nodes[ev.nodeId]
  {
    hide Events.ValidId, Coherent, Placed;
    var fired := DirectJoin(n.swim, ev).fired;
    NoNotice(hash, n.router);
    if fired != [] {
      assert fired == [fired[0]];
      OneNotice(hash, n.router, fired[0]);
    }
  }

  /**
   Over a run: a node on the ring at both ends is where it was, and the table agrees
   exactly when the newest address the run gave it is that one, or the run gave it
   none and they agreed before.
   */
  lemma RunAgreesIff(hash: string -> nat, n: NodeState, ops: seq<Op>, id: string)
    requires InStep(n.swim.view, n.router) && id != n.swim.view.self.nodeId
    requires id in n.router.nodes && id in NodeRun(hash, n, ops).router.nodes
    ensures NodeRun(hash, n, ops).router.nodes[id] == n.router.nodes[id]
    ensures Agree(NodeRun(hash, n, ops), id) <==>
            Matches(Newest(n.swim, ops, id), n.router.nodes[id], Agree(n, id))
  {
    hide NodeRun, Run, Newest, InStep, Gone;
    RunKeepsAddress(hash, n, ops, id);
    RunUpdates(hash, n, ops, id);
    RunAgrees(hash, n, ops);
    RunKeepsStep(hash, n, ops);
    OnRingNotGone(NodeRun(hash, n, ops), id);
    OnRingNotGone(n, id);
  }

  // -------------------------------------------------------------------------
  // From boot
  // -------------------------------------------------------------------------

  lemma {:induction false} RunSplit(hash: string -> nat, n: NodeState, ops: seq<Op>, i: nat)
    requires i <= |ops|
    ensures NodeRun(hash, n, ops) == NodeRun(hash, NodeRun(hash, n, ops[..i]), ops[i..])
    decreases |ops|
  {
    hide NodeApply;
    if i == |ops| {
      assert ops[..i] == ops && ops[i..] == [];
    } else {
      var init := ops[..|ops| - 1];
      RunSplit(hash, n, init, i);
      assert init[..i] == ops[..i] && ops[i..][..|ops[i..]| - 1] == init[i..];
    }
  }

  /** A node on the ring that is not this one was put there by some step of the run. */
  lemma {:induction false} AddedAt(hash: string -> nat, n: NodeState, ops: seq<Op>, id: string) returns (i: nat)
    requires id !in n.router.nodes && id in NodeRun(hash, n, ops).router.nodes
    ensures i < |ops| && id !in NodeRun(hash, n, ops[..i]).router.nodes
    ensures id in NodeRun(hash, n, ops[..i + 1]).router.nodes
    decreases |ops|
  {
    hide NodeApply;
    var init := ops[..|ops| - 1];
    if id in NodeRun(hash, n, init).router.nodes {
      i := AddedAt(hash, n, init, id);
      assert init[..i] == ops[..i] && init[..i + 1] == ops[..i + 1];
    } else {
      i := |ops| - 1;
      assert ops[..i + 1] == ops;
    }
  }

  /** After the step `i` that put `id` on the ring, the run from there. */
  lemma SinceAdded(hash: string -> nat, b: NodeState, ops: seq<Op>, i: nat, id: string)
    requires InStep(b.swim.view, b.router) && id != b.swim.view.self.nodeId && i < |ops|
    requires id !in NodeRun(hash, b, ops[..i]).router.nodes && id in NodeRun(hash, b, ops[..i + 1]).router.nodes
    requires id in NodeRun(hash, b, ops).router.nodes
    ensures
      var first, last := NodeRun(hash, b, ops[..i + 1]), NodeRun(hash, b, ops);
      && Agree(first, id) && last.router.nodes[id] == first.router.nodes[id]
      && (Agree(last, id) <==> Matches(Newest(first.swim, ops[i + 1..], id), first.router.nodes[id], true))
  {
    hide InStep, NodeApply, Newest, Agree;
    var before, first := NodeRun(hash, b, ops[..i]), NodeRun(hash, b, ops[..i + 1]);
    RunKeepsStep(hash, b, ops[..i]);
    RunKeepsStep(hash, b, ops[..i + 1]);
    SelfStays(hash, b, ops[..i]);
    SelfStays(hash, b, ops[..i + 1]);
    assert ops[..i + 1][..i] == ops[..i];
    AddedAgrees(hash, before, ops[i], id);
    RunSplit(hash, b, ops, i + 1);
    RunAgreesIff(hash, first, ops[i + 1..], id);
  }

  lemma SelfStays(hash: string -> nat, n: NodeState, ops: seq<Op>)
    ensures NodeRun(hash, n, ops).swim.view.self == n.swim.view.self
  {
    hide NodeRun, Run;
    RunAgrees(hash, n, ops);
    RunUp(n.swim, ops, 0);
    RunStart(n.swim, ops);
  }

  lemma RunStart(s: SwimState, ops: seq<Op>)
    ensures Run(s, ops[..0]) == s
  {
  }

  /**
   Over every run of a node: any other node on the ring is at the address it was first
   put there with, and the member table agrees exactly when the newest address accepted
   since then, if any, is that first one.
   */
  lemma FirstAddressIff(hash: string -> nat, self: NodeInfo, vnodes: nat, ops: seq<Op>, id: string) returns (i: nat)
    requires id != self.nodeId && id in NodeRun(hash, Booted(hash, self, vnodes), ops).router.nodes
    ensures
      var b := Booted(hash, self, vnodes);
      && i < |ops| && id !in NodeRun(hash, b, ops[..i]).router.nodes
      && var first, last := NodeRun(hash, b, ops[..i + 1]), NodeRun(hash, b, ops);
         && Agree(first, id) && last.router.nodes[id] == first.router.nodes[id]
         && (Agree(last, id) <==> Matches(Newest(first.swim, ops[i + 1..], id), first.router.nodes[id], true))
  {
    hide InStep, NodeRun, Newest, Matches;
    var b := Booted(hash, self, vnodes);
    BootedInStep(hash, self, vnodes);
    i := AddedAt(hash, b, ops, id);
    SinceAdded(hash, b, ops, i, id);
  }

  /** News of life from the address `host`. */
  function From(id: string, host: string, incarnation: nat): Op {
    OpReceive(Events.Event(Events.Alive, id, host, 0, incarnation), 0)
  }

  /** A node heard of at one host and then at another: the ring keeps the first, the table has the second. */
  lemma StaleAddress(hash: string -> nat, self: NodeInfo, vnodes: nat, id: string, h1: string, h2: string)
    requires id != self.nodeId && Events.ValidId(id) && h1 != h2 && h2 != ""
    ensures
      var n := NodeRun(hash, Booted(hash, self, vnodes), [From(id, h1, 0), From(id, h2, 1)]);
      && id in n.router.nodes && id in n.swim.view.members
      && n.router.nodes[id].host == h1 && n.swim.view.members[id].info.host == h2
  {
    hide Events.ValidId, Placed;
    var b := Booted(hash, self, vnodes);
    var ops := [From(id, h1, 0), From(id, h2, 1)];
    var n1 := NodeApply(hash, b, ops[0]);
    var n2 := NodeApply(hash, n1, ops[1]);
    assert ops[..1] == [ops[0]] && [ops[0]][..0] == [];
    assert NodeRun(hash, b, []) == b && NodeRun(hash, b, [ops[0]]) == n1;
    assert NodeRun(hash, b, ops) == n2;
    OneNotice(hash, b.router, Notice(NodeInfo(id, h1, 0), Alive));
    OneNotice(hash, n1.router, Notice(NodeInfo(id, h2, 0), Alive));
  }
}
