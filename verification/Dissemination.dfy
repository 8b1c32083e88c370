/**
 A cluster of nodes gossiping over a network that may delay, reorder and lose
 messages.  With no new facts coming from outside, gossip dies out: every run is
 bounded by a potential computed from the cluster it starts in.
 */
module Dissemination {
  import opened Text
  import opened Nodes
  import opened Orders
  import opened Membership
  import Events

  datatype Envelope = Envelope(dest: nat, ev: Event)

  /** Nodes are addressed by their position; `flight` is what has been sent and not yet arrived. */
  datatype Cluster = Cluster(nodes: seq<SwimState>, flight: multiset<Envelope>)

  datatype Step =
    | Send(from: nat, dest: nat)
    | Arrive(msg: Envelope, now: nat)
    | Lose(msg: Envelope)

  function Envelopes(dest: nat, ps: seq<Pending>): seq<Envelope> {
    seq(|ps|, i requires 0 <= i < |ps| => Envelope(dest, ps[i].event))
  }

  /** A send with nothing queued is no gossip at all. */
  ghost predicate Enabled(c: Cluster, t: Step) {
    match t
    case Send(from, _) => from < |c.nodes| && c.nodes[from].pending != []
    case Arrive(m, _) => m in c.flight && m.dest < |c.nodes|
    case Lose(m) => m in c.flight
  }

  ghost function Next(c: Cluster, t: Step): Cluster
    requires Enabled(c, t)
  {
    match t
    case Send(from, dest) =>
      var s := c.nodes[from];
      Cluster(c.nodes[from := s.(pending := Spent(s.pending))], c.flight + multiset(Envelopes(dest, s.pending)))
    case Arrive(m, now) =>
      Cluster(c.nodes[m.dest := Receive(c.nodes[m.dest], m.ev, now).state], c.flight - multiset{m})
    case Lose(m) => c.(flight := c.flight - multiset{m})
  }

  ghost predicate Runs(c: Cluster, ts: seq<Step>)
    decreases |ts|
  {
    ts == [] || (Enabled(c, ts[0]) && Runs(Next(c, ts[0]), ts[1..]))
  }

  ghost function Final(c: Cluster, ts: seq<Step>): Cluster
    requires Runs(c, ts)
    decreases |ts|
  {
    if ts == [] then c else Final(Next(c, ts[0]), ts[1..])
  }

  /** Nothing queued anywhere and nothing in flight. */
  predicate Silent(c: Cluster) { c.flight == multiset{} && forall s | s in c.nodes :: s.pending == [] }

  lemma SilentIffStuck(c: Cluster)
    ensures Silent(c) <==> forall t :: !Enabled(c, t)
  {
    if !Silent(c) {
      if c.flight != multiset{} {
        var m :| m in c.flight;
        assert Enabled(c, Lose(m));
      } else {
        var s :| s in c.nodes && s.pending != [];
        var i :| 0 <= i < |c.nodes| && c.nodes[i] == s;
        assert Enabled(c, Send(i, 0));
      }
    }
  }

  // -------------------------------------------------------------------------
  // The potential
  // -------------------------------------------------------------------------

  /** How many more messages an entry of the queue can ride on. */
  function Weight(p: Pending): nat { if p.remaining <= 1 then 1 else p.remaining }

  function QueueWeight(ps: seq<Pending>): nat {
    if ps == [] then 0 else QueueWeight(ps[..|ps| - 1]) + Weight(ps[|ps| - 1])
  }

  function Budget(nodes: seq<SwimState>): nat {
    if nodes == [] then 0 else Budget(nodes[..|nodes| - 1]) + QueueWeight(nodes[|nodes| - 1].pending)
  }

  lemma QueueWeightSnoc(ps: seq<Pending>, p: Pending)
    ensures QueueWeight(ps + [p]) == QueueWeight(ps) + Weight(p)
  {
    assert (ps + [p])[..|ps|] == ps;
  }

  /** Each queued event pays one for each message it rides on. */
  lemma {:induction false} SpentWeight(ps: seq<Pending>)
    ensures QueueWeight(Spent(ps)) + |ps| == QueueWeight(ps)
    decreases |ps|
  {
    if ps != [] {
      var init, p := ps[..|ps| - 1], ps[|ps| - 1];
      SpentWeight(init);
      if p.remaining <= 1 {
        assert Spent(init) + [] == Spent(init);
      } else {
        QueueWeightSnoc(Spent(init), p.(remaining := p.remaining - 1));
      }
    }
  }

  lemma {:induction false} BudgetUpdate(nodes: seq<SwimState>, i: nat, s: SwimState)
    requires i < |nodes|
    ensures Budget(nodes[i := s]) + QueueWeight(nodes[i].pending) == Budget(nodes) + QueueWeight(s.pending)
    decreases |nodes|
  {
    hide QueueWeight;
    var init := nodes[..|nodes| - 1];
    if i == |init| {
      assert nodes[i := s][..i] == init;
    } else {
      assert nodes[i := s][..|init|] == init[i := s];
      BudgetUpdate(init, i, s);
    }
  }

  /** The answer a node would give to an event about itself. */
  function Refutation(self: NodeInfo, ev: Event): Event {
    Events.Event(Events.Alive, self.nodeId, self.host, self.port, ev.incarnation + 1)
  }

  predicate Provokes(self: NodeInfo, ev: Event) {
    ev.nodeId == self.nodeId && (ev.kind.Suspect? || ev.kind.Dead?)
  }

  ghost predicate NodeWithin(s: SwimState, u: set<Event>, ids: set<string>) {
    && s.view.members.Keys <= ids
    && (forall p | p in s.pending :: p.event in u)
    && (forall ev | ev in u && Provokes(s.view.self, ev) :: Refutation(s.view.self, ev) in u)
  }

  /** `u` holds every event there is or that could be provoked, `ids` every node named. */
  ghost predicate Within(c: Cluster, u: set<Event>, ids: set<string>) {
    && (forall s | s in c.nodes :: NodeWithin(s, u, ids))
    && (forall m | m in c.flight :: m.ev in u)
    && (forall ev | ev in u :: ev.nodeId in ids)
  }

  /** The events some node has yet to take in or be past. */
  ghost function Unsettled(c: Cluster, u: set<Event>): set<(nat, Event)> {
    set i: nat, ev | 0 <= i < |c.nodes| && ev in u && !Settled(c.nodes[i].view, ev) :: (i, ev)
  }

  ghost function Potential(c: Cluster, u: set<Event>, ids: set<string>): nat {
    4 * LimitFor(|ids|) * |Unsettled(c, u)| + 2 * Budget(c.nodes) + |c.flight|
  }

  lemma LimitBound(v: View, ids: set<string>)
    requires v.members.Keys <= ids
    ensures Limit(v) <= LimitFor(|ids|)
  {
    SubsetSize(v.members.Keys, ids);
    assert |v.members| == |v.members.Keys|;
    CeilLog2Monotone(|v.members| + 2, |ids| + 2);
  }

  lemma EnqueueWeight(s: SwimState, ev: Event, ids: set<string>)
    requires s.view.members.Keys <= ids
    ensures Enqueue(s, ev).view == s.view
    ensures QueueWeight(Enqueue(s, ev).pending) <= QueueWeight(s.pending) + LimitFor(|ids|)
  {
    hide LimitFor;
    LimitBound(s.view, ids);
    LimitPositive(s.view);
    QueueWeightSnoc(s.pending, Pending(ev, Limit(s.view)));
  }

  lemma LimitPositive(v: View)
    ensures Limit(v) >= 3
  {
  }

  lemma DeliverKeys(v: View, ev: Event, now: nat, ids: set<string>)
    requires v.members.Keys <= ids && ev.nodeId in ids
    ensures
      var o := Deliver(v, ev, now);
      && o.view.self == v.self && o.view.members.Keys <= ids
      && (o.refutation.Some? ==> Provokes(v.self, ev) && o.refutation.value == Refutation(v.self, ev))
      && (!o.changed ==> o.view == v && o.refutation.None?)
  {
  }

  /** Taking an event in keeps the node within bounds and queues at most two events, and only if it was news. */
  lemma ReceiveBounds(s: SwimState, ev: Event, now: nat, u: set<Event>, ids: set<string>)
    requires NodeWithin(s, u, ids) && ev in u && ev.nodeId in ids
    ensures
      var r := Receive(s, ev, now);
      && NodeWithin(r.state, u, ids)
      && (!r.changed ==> r.state == s)
      && QueueWeight(r.state.pending) <= QueueWeight(s.pending) + 2 * LimitFor(|ids|)
  {
    hide Deliver, Enqueue, QueueWeight, LimitFor, Events.ValidId;
    DeliverKeys(s.view, ev, now, ids);
    var o := Deliver(s.view, ev, now);
    if Events.ValidId(ev.nodeId) && o.changed {
      var s' := s.(view := o.view);
      assert NodeWithin(s', u, ids);
      if o.refutation.Some? {
        EnqueueBounds(s', o.refutation.value, u, ids);
        EnqueueBounds(Enqueue(s', o.refutation.value), ev, u, ids);
      } else {
        EnqueueBounds(s', ev, u, ids);
      }
    }
  }

  lemma EnqueueBounds(s: SwimState, ev: Event, u: set<Event>, ids: set<string>)
    requires NodeWithin(s, u, ids) && ev in u
    ensures NodeWithin(Enqueue(s, ev), u, ids)
    ensures QueueWeight(Enqueue(s, ev).pending) <= QueueWeight(s.pending) + LimitFor(|ids|)
  {
    EnqueueWeight(s, ev, ids);
  }

  lemma {:induction false} SpentFrom(ps: seq<Pending>, p: Pending)
    requires p in Spent(ps)
    ensures exists q | q in ps :: q.event == p.event
    decreases |ps|
  {
    var init, last := ps[..|ps| - 1], ps[|ps| - 1];
    if p in Spent(init) {
      SpentFrom(init, p);
    } else {
      assert last in ps && p.event == last.event;
    }
  }

  lemma ReceiveSettles(s: SwimState, ev: Event, now: nat)
    ensures
      var r := Receive(s, ev, now);
      && ViewBelow(s.view, r.state.view)
      && (r.changed ==> !Settled(s.view, ev) && Settled(r.state.view, ev))
  {
    hide Settled, Deliver, ViewBelow, Events.ValidId;
    ApplyUp(s, OpReceive(ev, now));
    var o := Deliver(s.view, ev, now);
    if o.changed { AcceptSettles(s.view, ev, now); }
  }

  // -------------------------------------------------------------------------
  // Every step lowers it
  // -------------------------------------------------------------------------

  lemma UnsettledShrinks(c: Cluster, i: nat, s: SwimState, u: set<Event>)
    requires i < |c.nodes| && ViewBelow(c.nodes[i].view, s.view)
    ensures Unsettled(c.(nodes := c.nodes[i := s]), u) <= Unsettled(c, u)
  {
    hide ViewBelow, Settled;
    var d := c.(nodes := c.nodes[i := s]);
    forall x | x in Unsettled(d, u) ensures x in Unsettled(c, u) {
      var (j, ev) := x;
      if j == i && Settled(c.nodes[i].view, ev) { SettledUp(c.nodes[i].view, s.view, ev); }
    }
  }

  lemma UnsettledShrinksBy(c: Cluster, i: nat, s: SwimState, u: set<Event>, ev: Event)
    requires i < |c.nodes| && ViewBelow(c.nodes[i].view, s.view)
    requires ev in u && !Settled(c.nodes[i].view, ev) && Settled(s.view, ev)
    ensures |Unsettled(c.(nodes := c.nodes[i := s]), u)| + 1 <= |Unsettled(c, u)|
  {
    hide ViewBelow, Settled;
    var d := c.(nodes := c.nodes[i := s]);
    UnsettledShrinks(c, i, s, u);
    assert (i, ev) in Unsettled(c, u) && (i, ev) !in Unsettled(d, u);
    SubsetSize(Unsettled(d, u) + {(i, ev)}, Unsettled(c, u));
  }

  lemma UnsettledFlight(c: Cluster, f: multiset<Envelope>, u: set<Event>)
    ensures Unsettled(c.(flight := f), u) == Unsettled(c, u)
  {
  }

  lemma SendLowers(c: Cluster, from: nat, dest: nat, u: set<Event>, ids: set<string>)
    requires Enabled(c, Send(from, dest)) && Within(c, u, ids)
    ensures Within(Next(c, Send(from, dest)), u, ids)
    ensures Potential(Next(c, Send(from, dest)), u, ids) < Potential(c, u, ids)
  {
    hide QueueWeight, Budget, Spent, Settled, ViewBelow, LimitFor, Unsettled;
    var s := c.nodes[from];
    var s' := s.(pending := Spent(s.pending));
    var d := Next(c, Send(from, dest));
    SendWithin(c, from, dest, u, ids);
    BudgetUpdate(c.nodes, from, s');
    SpentWeight(s.pending);
    ViewBelowSelf(s.view);
    UnsettledShrinks(c, from, s', u);
    UnsettledFlight(c.(nodes := c.nodes[from := s']), d.flight, u);
    SubsetSize(Unsettled(d, u), Unsettled(c, u));
    Scale(4 * LimitFor(|ids|), |Unsettled(d, u)|, |Unsettled(c, u)|);
  }

  lemma Scale(k: nat, a: nat, b: nat)
    requires a <= b
    ensures k * a <= k * b
  {
  }

  lemma ViewBelowSelf(v: View)
    ensures ViewBelow(v, v)
  {
  }

  lemma SendWithin(c: Cluster, from: nat, dest: nat, u: set<Event>, ids: set<string>)
    requires Enabled(c, Send(from, dest)) && Within(c, u, ids)
    ensures Within(Next(c, Send(from, dest)), u, ids)
  {
    hide Spent;
    var s := c.nodes[from];
    assert s in c.nodes && NodeWithin(s, u, ids);
    forall p | p in Spent(s.pending) ensures p.event in u { SpentFrom(s.pending, p); }
    assert NodeWithin(s.(pending := Spent(s.pending)), u, ids);
    var sent := Envelopes(dest, s.pending);
    forall m | m in sent ensures m.ev in u {
      var k :| 0 <= k < |sent| && sent[k] == m;
      assert s.pending[k] in s.pending;
    }
  }

  lemma ArriveWithin(c: Cluster, m: Envelope, now: nat, u: set<Event>, ids: set<string>)
    requires Enabled(c, Arrive(m, now)) && Within(c, u, ids)
    ensures Within(Next(c, Arrive(m, now)), u, ids)
  {
    hide Receive, NodeWithin;
    assert c.nodes[m.dest] in c.nodes;
    ReceiveBounds(c.nodes[m.dest], m.ev, now, u, ids);
  }

  /** One fact settled pays for two events queued. */
  lemma NewsPays(limit: nat, open': nat, open: nat, budget': nat, budget: nat)
    requires open' + 1 <= open && budget' <= budget + 2 * limit
    ensures 4 * limit * open' + 2 * budget' <= 4 * limit * open + 2 * budget
  {
    Scale(4 * limit, open' + 1, open);
  }

  lemma NewsLowers(c: Cluster, i: nat, ev: Event, now: nat, u: set<Event>, ids: set<string>)
    requires i < |c.nodes| && NodeWithin(c.nodes[i], u, ids) && ev in u && ev.nodeId in ids
    ensures
      var d := c.(nodes := c.nodes[i := Receive(c.nodes[i], ev, now).state]);
      Potential(d, u, ids) <= Potential(c, u, ids)
  {
    hide QueueWeight, Budget, Settled, ViewBelow, LimitFor, Unsettled, Receive, NodeWithin;
    var s := c.nodes[i];
    var r := Receive(s, ev, now);
    ReceiveBounds(s, ev, now, u, ids);
    if r.changed {
      ReceiveSettles(s, ev, now);
      BudgetUpdate(c.nodes, i, r.state);
      UnsettledShrinksBy(c, i, r.state, u, ev);
      var d := c.(nodes := c.nodes[i := r.state]);
      NewsPays(LimitFor(|ids|), |Unsettled(d, u)|, |Unsettled(c, u)|, Budget(d.nodes), Budget(c.nodes));
    } else {
      assert c.nodes[i := s] == c.nodes;
    }
  }

  lemma FlightPays(c: Cluster, m: Envelope, u: set<Event>, ids: set<string>)
    requires m in c.flight
    ensures Potential(c.(flight := c.flight - multiset{m}), u, ids) + 1 == Potential(c, u, ids)
  {
    hide LimitFor, Budget, Settled, Unsettled;
    UnsettledFlight(c, c.flight - multiset{m}, u);
  }

  lemma ArriveLowers(c: Cluster, m: Envelope, now: nat, u: set<Event>, ids: set<string>)
    requires Enabled(c, Arrive(m, now)) && Within(c, u, ids)
    ensures Within(Next(c, Arrive(m, now)), u, ids)
    ensures Potential(Next(c, Arrive(m, now)), u, ids) < Potential(c, u, ids)
  {
    hide Potential, Receive, NodeWithin;
    assert c.nodes[m.dest] in c.nodes;
    ArriveWithin(c, m, now, u, ids);
    NewsLowers(c, m.dest, m.ev, now, u, ids);
    FlightPays(c.(nodes := c.nodes[m.dest := Receive(c.nodes[m.dest], m.ev, now).state]), m, u, ids);
  }

  lemma StepLowers(c: Cluster, t: Step, u: set<Event>, ids: set<string>)
    requires Enabled(c, t) && Within(c, u, ids)
    ensures Within(Next(c, t), u, ids) && Potential(Next(c, t), u, ids) < Potential(c, u, ids)
  {
    hide Within, Potential;
    match t
    case Send(from, dest) => SendLowers(c, from, dest, u, ids);
    case Arrive(m, now) => ArriveLowers(c, m, now, u, ids);
    case Lose(m) => LoseLowers(c, m, u, ids);
  }

  lemma LoseLowers(c: Cluster, m: Envelope, u: set<Event>, ids: set<string>)
    requires Enabled(c, Lose(m)) && Within(c, u, ids)
    ensures Within(Next(c, Lose(m)), u, ids) && Potential(Next(c, Lose(m)), u, ids) < Potential(c, u, ids)
  {
    hide NodeWithin, Potential;
    FlightPays(c, m, u, ids);
  }

  lemma {:induction false} RunsBounded(c: Cluster, ts: seq<Step>, u: set<Event>, ids: set<string>)
    requires Runs(c, ts) && Within(c, u, ids)
    ensures |ts| + Potential(Final(c, ts), u, ids) <= Potential(c, u, ids)
    decreases |ts|
  {
    hide Within, Potential, Next, Enabled;
    if ts != [] {
      StepLowers(c, ts[0], u, ids);
      RunsBounded(Next(c, ts[0]), ts[1..], u, ids);
    }
  }

  // -------------------------------------------------------------------------
  // The bound is the cluster's own
  // -------------------------------------------------------------------------

  ghost function Heard(c: Cluster): set<Event> {
    (set s, p | s in c.nodes && p in s.pending :: p.event) + (set m | m in c.flight :: m.ev)
  }

  /** Everything queued or in flight, and every refutation of it. */
  ghost function Universe(c: Cluster): set<Event> {
    Heard(c) + (set s, ev | s in c.nodes && ev in Heard(c) && Provokes(s.view.self, ev) :: Refutation(s.view.self, ev))
  }

  ghost function Named(c: Cluster): set<string> {
    (set ev | ev in Universe(c) :: ev.nodeId) + (set s, id | s in c.nodes && id in s.view.members :: id)
  }

  lemma UniverseWithin(c: Cluster)
    ensures Within(c, Universe(c), Named(c))
  {
    var u, ids := Universe(c), Named(c);
    forall s | s in c.nodes ensures NodeWithin(s, u, ids) {
      forall id | id in s.view.members ensures id in ids {}
      forall p | p in s.pending ensures p.event in u { assert p.event in Heard(c); }
      forall ev | ev in u && Provokes(s.view.self, ev) ensures Refutation(s.view.self, ev) in u {
        assert ev in Heard(c);
      }
    }
    forall m | m in c.flight ensures m.ev in u { assert m.ev in Heard(c); }
  }

  /**
   Gossip dies out: whatever the order of sends, arrivals and losses, a run has
   no more steps than the potential of the cluster it starts in.
   */
  lemma GossipDiesOut(c: Cluster, ts: seq<Step>)
    requires Runs(c, ts)
    ensures |ts| <= Potential(c, Universe(c), Named(c))
  {
    hide Universe, Named, Potential, Within, Runs, Final;
    UniverseWithin(c);
    RunsBounded(c, ts, Universe(c), Named(c));
  }
}
