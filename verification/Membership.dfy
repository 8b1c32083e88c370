/**
 SWIM membership on values: one node's view of the cluster, what each operation
 does to it, and the order every operation moves it up.

 Incarnations are unbounded here; the original's 64-bit counters are taken never
 to wrap.  Clock readings are parameters.
 */
module Membership {
  import opened Text
  import opened Nodes
  import opened Bits
  import Events

  type Event = Events.Event

  datatype MemberState = Alive | Suspect | Dead | Left

  datatype Entry = Entry(info: NodeInfo, state: MemberState, incarnation: nat, since: nat)

  /** A node's own incarnation and retirement, and its entries for everyone else. */
  datatype View = View(self: NodeInfo, incarnation: nat, left: bool, members: map<string, Entry>)

  /** A membership-change callback: fired on Alive, Dead and Left. */
  datatype Notice = Notice(info: NodeInfo, state: MemberState)

  datatype Pending = Pending(event: Event, remaining: int)

  datatype SwimState = SwimState(view: View, pending: seq<Pending>)

  /** A node never keeps an entry for itself, and entries are filed under their own id. */
  ghost predicate WellFormed(v: View) {
    v.self.nodeId !in v.members && forall id | id in v.members :: v.members[id].info.nodeId == id
  }

  function Lookup(v: View, id: string): Option<Entry> {
    if id in v.members then Some(v.members[id]) else None
  }

  // -------------------------------------------------------------------------
  // The order
  // -------------------------------------------------------------------------

  function Stage(s: MemberState): nat {
    match s case Alive => 0 case Suspect => 1 case Dead => 2 case Left => 3
  }

  /** Lexicographic on (left, incarnation, Alive < Suspect < Dead). */
  predicate Below(a: Entry, b: Entry) {
    || (!a.state.Left? && b.state.Left?)
    || (a.state.Left? == b.state.Left? &&
        (a.incarnation < b.incarnation || (a.incarnation == b.incarnation && Stage(a.state) <= Stage(b.state))))
  }

  ghost predicate ViewBelow(v: View, w: View) {
    && v.self == w.self && v.incarnation <= w.incarnation && (v.left ==> w.left)
    && forall id | id in v.members :: id in w.members && Below(v.members[id], w.members[id])
  }

  lemma ViewBelowTrans(u: View, v: View, w: View)
    requires ViewBelow(u, v) && ViewBelow(v, w)
    ensures ViewBelow(u, w)
  {
  }

  // -------------------------------------------------------------------------
  // Relayed events
  // -------------------------------------------------------------------------

  function ClaimedState(k: Events.Kind): MemberState {
    match k
    case Suspect => Suspect
    case Dead => Dead
    case Leave => Left
    case _ => Alive
  }

  /** The claim ranks strictly above the entry, ignoring retirement. */
  predicate Outranks(ev: Event, e: Entry) {
    ev.incarnation > e.incarnation ||
    (ev.incarnation == e.incarnation && Stage(ClaimedState(ev.kind)) > Stage(e.state))
  }

  /**
   When a relayed event about another node is accepted: a departure always, unless
   already known; anything else never against a departed node, and only when it
   outranks the entry.  A dead node yields to nothing but news of life, and an
   unknown node cannot be suspected.
   */
  predicate Wins(ev: Event, held: Option<Entry>) {
    match ev.kind
    case Unknown(_) => false
    case Leave => held.None? || !held.value.state.Left?
    case Suspect => held.Some? && held.value.state in {Alive, Suspect} && Outranks(ev, held.value)
    case Dead => held.None? || (held.value.state in {Alive, Suspect} && Outranks(ev, held.value))
    case _ => held.None? || (!held.value.state.Left? && Outranks(ev, held.value))
  }

  /**
   The entry an accepted event leaves behind: a departure keeps the incarnation,
   news of life may bring an address.
   */
  function Adopted(ev: Event, held: Option<Entry>, now: nat): Entry {
    var first := Entry(NodeInfo(ev.nodeId, ev.host, ev.port), ClaimedState(ev.kind), ev.incarnation, 0);
    if held.None? then first
    else if ev.kind.Leave? then held.value.(state := Left)
    else if ev.kind.Suspect? then held.value.(state := Suspect, incarnation := ev.incarnation, since := now)
    else if ev.kind.Dead? then held.value.(state := Dead, incarnation := ev.incarnation)
    else held.value.(state := Alive, incarnation := ev.incarnation, info := Readdressed(held.value.info, ev))
  }

  function Readdressed(info: NodeInfo, ev: Event): NodeInfo {
    if ev.host == "" then info else info.(host := ev.host, port := ev.port)
  }

  /** A suspicion is silent, and so is a death or departure of a node never known here. */
  function FiredBy(ev: Event, held: Option<Entry>, now: nat): seq<Notice> {
    if ev.kind.Suspect? || (held.None? && (ev.kind.Dead? || ev.kind.Leave?)) then []
    else [Notice(Adopted(ev, held, now).info, ClaimedState(ev.kind))]
  }

  datatype Outcome = Outcome(view: View, changed: bool, refutation: Option<Event>, fired: seq<Notice>)

  function AliveSelf(v: View, incarnation: nat): Event {
    Events.Event(Events.Alive, v.self.nodeId, v.self.host, v.self.port, incarnation)
  }

  /** An event about ourselves: a departure is obeyed, a live suspicion or death is refuted. */
  function DeliverSelf(v: View, ev: Event): Outcome {
    match ev.kind
    case Leave =>
      if v.left then Outcome(v, false, None, [])
      else Outcome(v.(left := true), true, None, [Notice(v.self, Left)])
    case Suspect =>
      if ev.incarnation < v.incarnation then Outcome(v, false, None, []) else Refuting(v, ev)
    case Dead =>
      if ev.incarnation < v.incarnation then Outcome(v, false, None, []) else Refuting(v, ev)
    case _ => Outcome(v, false, None, [])
  }

  function Refuting(v: View, ev: Event): Outcome {
    Outcome(v.(incarnation := ev.incarnation + 1), true, Some(AliveSelf(v, ev.incarnation + 1)), [])
  }

  function Deliver(v: View, ev: Event, now: nat): Outcome {
    if ev.nodeId == v.self.nodeId then DeliverSelf(v, ev)
    else
      var held := Lookup(v, ev.nodeId);
      if Wins(ev, held)
      then Outcome(v.(members := v.members[ev.nodeId := Adopted(ev, held, now)]), true, None, FiredBy(ev, held, now))
      else Outcome(v, false, None, [])
  }

  // -------------------------------------------------------------------------
  // The other operations
  // -------------------------------------------------------------------------

  /** The smallest k with 2^k >= m. */
  function CeilLog2(m: nat): nat {
    if m <= 1 then 0 else 1 + CeilLog2((m + 1) / 2)
  }

  /** It is the rounded-up logarithm. */
  lemma {:induction false} CeilLog2IsCeiling(m: nat)
    requires m >= 1
    ensures m <= Pow2(CeilLog2(m))
    ensures CeilLog2(m) > 0 ==> Pow2(CeilLog2(m) - 1) < m
  {
    if m > 1 { CeilLog2IsCeiling((m + 1) / 2); }
  }

  lemma {:induction false} CeilLog2Monotone(a: nat, b: nat)
    requires a <= b
    ensures CeilLog2(a) <= CeilLog2(b)
    decreases b
  {
    if a > 1 { CeilLog2Monotone((a + 1) / 2, (b + 1) / 2); }
  }

  function LimitFor(members: nat): nat {
    var k := 3 * CeilLog2(members + 2);
    if k < 3 then 3 else k
  }

  /** Three for every doubling it takes to reach the member count plus two, and so never under three. */
  lemma LimitIsCeiling(members: nat)
    ensures
      var k := CeilLog2(members + 2);
      k >= 1 && LimitFor(members) == 3 * k && Pow2(k - 1) < members + 2 <= Pow2(k)
  {
    CeilLog2IsCeiling(members + 2);
  }

  /** How many messages an event is piggybacked on. */
  function Limit(v: View): nat { LimitFor(|v.members|) }

  function Enqueue(s: SwimState, ev: Event): SwimState {
    s.(pending := s.pending + [Pending(ev, Limit(s.view))])
  }

  datatype Result = Result(state: SwimState, changed: bool, fired: seq<Notice>)

  /** `applyEvent`: the view after the event, with any refutation queued. */
  function ApplyEvent(s: SwimState, ev: Event, now: nat): Result {
    var o := Deliver(s.view, ev, now);
    var s' := s.(view := o.view);
    Result(if o.refutation.Some? then Enqueue(s', o.refutation.value) else s', o.changed, o.fired)
  }

  /** One incoming event: applied, and passed on if it changed anything. */
  function Receive(s: SwimState, ev: Event, now: nat): Result {
    if !Events.ValidId(ev.nodeId) then Result(s, false, [])
    else
      var r := ApplyEvent(s, ev, now);
      if r.changed then r.(state := Enqueue(r.state, ev)) else r
  }

  /** An event is passed on, last in the queue and with a full budget, exactly when it moved the view. */
  lemma PassedOnIff(s: SwimState, ev: Event, now: nat)
    ensures
      var t := Receive(s, ev, now).state;
      if t.view == s.view then t == s
      else t.pending != [] && t.pending[|t.pending| - 1] == Pending(ev, LimitFor(|t.view.members|))
  {
    hide Events.ValidId, LimitFor;
  }

  /** The entry a direct join leaves: the joiner speaks for itself, so it goes above whatever was held. */
  function Joined(ev: Event, held: Option<Entry>): Entry {
    if held.None? then Entry(NodeInfo(ev.nodeId, ev.host, ev.port), Alive, ev.incarnation, 0)
    else
      var e := held.value;
      var eff := if ev.incarnation >= e.incarnation + 1 then ev.incarnation else e.incarnation + 1;
      e.(state := Alive, incarnation := eff, info := Readdressed(e.info, ev))
  }

  /** `applyDirectJoin`: `changed` is false exactly when the join is refused or names this node. */
  function DirectJoin(s: SwimState, ev: Event): Result {
    var held := Lookup(s.view, ev.nodeId);
    if ev.nodeId == s.view.self.nodeId || (held.Some? && held.value.state.Left?) then Result(s, false, [])
    else
      var e := Joined(ev, held);
      Result(s.(view := s.view.(members := s.view.members[ev.nodeId := e])), true,
             if held.Some? && held.value.state.Alive? then [] else [Notice(e.info, Alive)])
  }

  /** The SWIM_JOIN handler: a join that takes effect is passed on as news of life. */
  function HandleJoin(s: SwimState, ev: Event): Result {
    if !Events.ValidId(ev.nodeId) then Result(s, false, [])
    else
      var r := DirectJoin(s, ev);
      if ev.nodeId == s.view.self.nodeId
      then Result(Enqueue(s, ev.(kind := Events.Alive, incarnation := s.view.incarnation)), true, [])
      else if !r.changed then r
      else r.(state := Enqueue(r.state,
                ev.(kind := Events.Alive, incarnation := r.state.view.members[ev.nodeId].incarnation)))
  }

  function ShortEvent(k: Events.Kind, id: string, incarnation: nat): Event {
    Events.Event(k, id, "", 0, incarnation)
  }

  /** Moving an entry to `st` and announcing it under `k`. */
  function Move(s: SwimState, id: string, e: Entry, k: Events.Kind): SwimState {
    Enqueue(s.(view := s.view.(members := s.view.members[id := e])), ShortEvent(k, id, e.incarnation))
  }

  /** Administrative removal; quiet when already done or unknown. */
  function LeaveNode(s: SwimState, id: string): Result {
    if id == s.view.self.nodeId then
      if s.view.left then Result(s, false, [])
      else Result(Enqueue(s.(view := s.view.(left := true)), ShortEvent(Events.Leave, id, s.view.incarnation)), true,
                  [Notice(s.view.self, Left)])
    else if id !in s.view.members || s.view.members[id].state.Left? then Result(s, false, [])
    else
      var e := s.view.members[id].(state := Left);
      Result(Move(s, id, e, Events.Leave), true, [Notice(e.info, Left)])
  }

  function SuspectNode(s: SwimState, id: string, now: nat): Result {
    if id !in s.view.members || !s.view.members[id].state.Alive? then Result(s, false, [])
    else Result(Move(s, id, s.view.members[id].(state := Suspect, since := now), Events.Suspect), true, [])
  }

  function ConfirmDead(s: SwimState, id: string): Result {
    if id !in s.view.members || s.view.members[id].state in {Dead, Left} then Result(s, false, [])
    else
      var e := s.view.members[id].(state := Dead);
      Result(Move(s, id, e, Events.Dead), true, [Notice(e.info, Dead)])
  }

  /** One suspect whose timeout has elapsed. */
  function ExpireOne(s: SwimState, id: string, now: nat, timeout: nat): Result {
    if id in s.view.members && s.view.members[id].state.Suspect? && now >= s.view.members[id].since + timeout
    then ConfirmDead(s, id) else Result(s, false, [])
  }

  function ExpireAll(s: SwimState, ids: seq<string>, now: nat, timeout: nat): Result {
    if ids == [] then Result(s, false, [])
    else
      var r := ExpireAll(s, ids[..|ids| - 1], now, timeout);
      var q := ExpireOne(r.state, ids[|ids| - 1], now, timeout);
      Result(q.state, r.changed || q.changed, r.fired + q.fired)
  }

  function Refute(s: SwimState): SwimState {
    Enqueue(s.(view := s.view.(incarnation := s.view.incarnation + 1)), AliveSelf(s.view, s.view.incarnation + 1))
  }

  /** What is left of the queue once every event has been sent once more. */
  function Spent(ps: seq<Pending>): seq<Pending> {
    if ps == [] then []
    else
      var p := ps[|ps| - 1];
      Spent(ps[..|ps| - 1]) + if p.remaining <= 1 then [] else [p.(remaining := p.remaining - 1)]
  }

  function Piggybacked(ps: seq<Pending>): seq<Event> {
    seq(|ps|, i requires 0 <= i < |ps| => ps[i].event)
  }

  // -------------------------------------------------------------------------
  // Every operation moves the view up
  // -------------------------------------------------------------------------

  /** Everything that can happen to a node's membership state. */
  datatype Op =
    | OpReceive(ev: Event, now: nat)
    | OpJoin(ev: Event)
    | OpLeave(id: string)
    | OpSuspect(id: string, now: nat)
    | OpConfirm(id: string)
    | OpExpire(ids: seq<string>, now: nat, timeout: nat)
    | OpRefute
    | OpSend

  function Apply(s: SwimState, op: Op): Result {
    match op
    case OpReceive(ev, now) => Receive(s, ev, now)
    case OpJoin(ev) => HandleJoin(s, ev)
    case OpLeave(id) => LeaveNode(s, id)
    case OpSuspect(id, now) => SuspectNode(s, id, now)
    case OpConfirm(id) => ConfirmDead(s, id)
    case OpExpire(ids, now, timeout) => ExpireAll(s, ids, now, timeout)
    case OpRefute => Result(Refute(s), true, [])
    case OpSend => Result(s.(pending := Spent(s.pending)), false, [])
  }

  lemma AdoptedAbove(ev: Event, held: Option<Entry>, now: nat)
    requires Wins(ev, held) && held.Some?
    ensures Below(held.value, Adopted(ev, held, now))
  {
  }

  /** Filing a higher entry, or a first one, moves the view up. */
  lemma EntryUp(v: View, id: string, e: Entry)
    requires id in v.members ==> Below(v.members[id], e)
    ensures ViewBelow(v, v.(members := v.members[id := e]))
  {
  }

  lemma DeliverUp(v: View, ev: Event, now: nat)
    ensures ViewBelow(v, Deliver(v, ev, now).view)
  {
    var held := Lookup(v, ev.nodeId);
    if ev.nodeId != v.self.nodeId && Wins(ev, held) {
      if held.Some? { AdoptedAbove(ev, held, now); }
      EntryUp(v, ev.nodeId, Adopted(ev, held, now));
    }
  }

  lemma JoinUp(s: SwimState, ev: Event)
    ensures ViewBelow(s.view, HandleJoin(s, ev).state.view)
  {
    EntryUp(s.view, ev.nodeId, if ev.nodeId in s.view.members && s.view.members[ev.nodeId].state.Left?
                               then s.view.members[ev.nodeId] else Joined(ev, Lookup(s.view, ev.nodeId)));
  }

  lemma LeaveUp(s: SwimState, id: string)
    ensures ViewBelow(s.view, LeaveNode(s, id).state.view)
  {
    if id in s.view.members { EntryUp(s.view, id, s.view.members[id].(state := Left)); }
  }

  lemma ConfirmUp(s: SwimState, id: string)
    ensures ViewBelow(s.view, ConfirmDead(s, id).state.view)
  {
    if id in s.view.members && s.view.members[id].state !in {Dead, Left} {
      EntryUp(s.view, id, s.view.members[id].(state := Dead));
    }
  }

  lemma {:induction false} ExpireUp(s: SwimState, ids: seq<string>, now: nat, timeout: nat)
    ensures ViewBelow(s.view, ExpireAll(s, ids, now, timeout).state.view)
  {
    if ids != [] {
      var r := ExpireAll(s, ids[..|ids| - 1], now, timeout);
      ExpireUp(s, ids[..|ids| - 1], now, timeout);
      ConfirmUp(r.state, ids[|ids| - 1]);
      ViewBelowTrans(s.view, r.state.view, ExpireOne(r.state, ids[|ids| - 1], now, timeout).state.view);
    }
  }

  /** No operation ever takes an entry back. */
  lemma ApplyUp(s: SwimState, op: Op)
    ensures ViewBelow(s.view, Apply(s, op).state.view)
  {
    match op
    case OpReceive(ev, now) => DeliverUp(s.view, ev, now);
    case OpJoin(ev) => JoinUp(s, ev);
    case OpLeave(id) => LeaveUp(s, id);
    case OpConfirm(id) => ConfirmUp(s, id);
    case OpExpire(ids, now, timeout) => ExpireUp(s, ids, now, timeout);
    case _ =>
  }

  /** The state after a run of operations. */
  function Run(s: SwimState, ops: seq<Op>): SwimState {
    if ops == [] then s else Apply(Run(s, ops[..|ops| - 1]), ops[|ops| - 1]).state
  }

  lemma {:induction false} RunUp(s: SwimState, ops: seq<Op>, i: nat)
    requires i <= |ops|
    ensures ViewBelow(Run(s, ops[..i]).view, Run(s, ops).view)
    decreases |ops|
  {
    if i < |ops| {
      var init := ops[..|ops| - 1];
      RunUp(s, init, i);
      assert init[..i] == ops[..i];
      ApplyUp(Run(s, init), ops[|ops| - 1]);
      ViewBelowTrans(Run(s, ops[..i]).view, Run(s, init).view, Run(s, ops).view);
    } else {
      assert ops[..i] == ops;
    }
  }

  // -------------------------------------------------------------------------
  // No event is accepted twice
  // -------------------------------------------------------------------------

  /** The view is already past the event: neither it nor any view above it accepts the event. */
  predicate Settled(v: View, ev: Event) {
    if ev.nodeId == v.self.nodeId then
      (ev.kind.Leave? ==> v.left) && (ev.kind.Suspect? || ev.kind.Dead? ==> v.incarnation > ev.incarnation)
    else if ev.kind.Unknown? then true
    else ev.nodeId in v.members &&
         var e := v.members[ev.nodeId];
         e.state.Left? || (!ev.kind.Leave? && !Outranks(ev, e))
  }

  lemma SettledRejects(v: View, ev: Event, now: nat)
    requires Settled(v, ev)
    ensures !Deliver(v, ev, now).changed
  {
  }

  lemma AcceptSettles(v: View, ev: Event, now: nat)
    requires Deliver(v, ev, now).changed
    ensures !Settled(v, ev) && Settled(Deliver(v, ev, now).view, ev)
  {
  }

  lemma SettledUp(v: View, w: View, ev: Event)
    requires ViewBelow(v, w) && Settled(v, ev)
    ensures Settled(w, ev)
  {
  }

  /** Over any run, a node that has accepted an event rejects every later copy of it. */
  lemma AcceptedOnce(s: SwimState, ops: seq<Op>, i: nat, j: nat, ev: Event)
    requires i < j < |ops| && ops[i].OpReceive? && ops[j].OpReceive? && ops[i].ev == ops[j].ev == ev
    requires Apply(Run(s, ops[..i]), ops[i]).changed
    ensures !Apply(Run(s, ops[..j]), ops[j]).changed
  {
    var before, after := Run(s, ops[..i]), Run(s, ops[..i + 1]);
    assert ops[..i + 1][..i] == ops[..i];
    AcceptSettles(before.view, ev, ops[i].now);
    RunUp(s, ops[..j], i + 1);
    assert ops[..j][..i + 1] == ops[..i + 1];
    SettledUp(after.view, Run(s, ops[..j]).view, ev);
    SettledRejects(Run(s, ops[..j]).view, ev, ops[j].now);
  }
}
