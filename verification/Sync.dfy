/**
 Membership anti-entropy: what a SWIM_SYNC / SWIM_SYNC_ACK push-pull exchange of
 full state does to the two views, and the digest that triggers it.
 */
module Sync {
  import opened Text
  import opened Orders
  import opened Nodes
  import opened Membership
  import opened Bits
  import Events

  // -------------------------------------------------------------------------
  // What two views must agree on
  // -------------------------------------------------------------------------

  /** A member as the digest sees it: suspicion is invisible, and so is the incarnation of the dead and departed. */
  datatype Digested = Digested(cls: char, incarnation: nat)

  function Digest1(st: MemberState, incarnation: nat): Digested {
    match st
    case Dead => Digested('D', 0)
    case Left => Digested('L', 0)
    case _ => Digested('A', incarnation)
  }

  function Seen(o: Option<Entry>): Option<Digested> {
    if o.Some? then Some(Digest1(o.value.state, o.value.incarnation)) else None
  }

  function SeenSelf(v: View): Digested { Digest1(if v.left then Left else Alive, v.incarnation) }

  /** What `v` holds about `id`, itself included. */
  function About(v: View, id: string): Option<Digested> {
    if id == v.self.nodeId then Some(SeenSelf(v)) else Seen(Lookup(v, id))
  }

  /** The abstract view: the same for every node that holds the same facts, whichever of them is "self". */
  function Abs(v: View): map<string, Digested> {
    (map id | id in v.members :: Digest1(v.members[id].state, v.members[id].incarnation))[v.self.nodeId := SeenSelf(v)]
  }

  lemma AbsEqual(v: View, w: View)
    ensures Abs(v) == Abs(w) <==> forall id :: About(v, id) == About(w, id)
  {
    forall id ensures id in Abs(v) <==> About(v, id).Some? {}
    forall id ensures id in Abs(w) <==> About(w, id).Some? {}
    assert forall id | id in Abs(v) :: About(v, id) == Some(Abs(v)[id]);
    assert forall id | id in Abs(w) :: About(w, id) == Some(Abs(w)[id]);
    if forall id :: About(v, id) == About(w, id) {
      forall id ensures id in Abs(v) <==> id in Abs(w) { assert About(v, id) == About(w, id); }
      forall id | id in Abs(v) ensures Abs(v)[id] == Abs(w)[id] { assert About(v, id) == About(w, id); }
    }
  }

  /** What a view holds about a node, itself included: its state and incarnation. */
  function Standing(v: View, id: string): Option<(MemberState, nat)> {
    if id == v.self.nodeId then Some((if v.left then Left else Alive, v.incarnation))
    else if id in v.members then Some((v.members[id].state, v.members[id].incarnation))
    else None
  }

  /** Both unknown, both dead, both departed, or both in at the same incarnation. */
  predicate SameStanding(x: Option<(MemberState, nat)>, y: Option<(MemberState, nat)>) {
    if x.None? || y.None? then x == y
    else
      var ((s, i), (t, j)) := (x.value, y.value);
      && (s.Dead? <==> t.Dead?) && (s.Left? <==> t.Left?)
      && (s.Alive? || s.Suspect? ==> i == j)
  }

  /** Two views have one abstract view exactly when they agree so about every node. */
  lemma AbsMeans(v: View, w: View)
    ensures Abs(v) == Abs(w) <==> forall id :: SameStanding(Standing(v, id), Standing(w, id))
  {
    hide Abs;
    AbsEqual(v, w);
    forall id ensures About(v, id) == About(w, id) <==> SameStanding(Standing(v, id), Standing(w, id)) {
      OneStanding(v, w, id);
    }
  }

  lemma OneStanding(v: View, w: View, id: string)
    ensures About(v, id) == About(w, id) <==> SameStanding(Standing(v, id), Standing(w, id))
  {
  }

  // -------------------------------------------------------------------------
  // Full state
  // -------------------------------------------------------------------------

  /** A suspicion travels as life: it is this node's private judgement. */
  function EntryEvent(id: string, e: Entry): Event {
    var k := match e.state case Dead => Events.Dead case Left => Events.Leave case _ => Events.Alive;
    Events.Event(k, id, e.info.host, e.info.port, e.incarnation)
  }

  function SelfEvent(v: View): Event {
    Events.Event(if v.left then Events.Leave else Events.Alive, v.self.nodeId, v.self.host, v.self.port, v.incarnation)
  }

  function MemberIds(v: View): (ids: seq<string>)
    ensures Elements(ids) == v.members.Keys
    ensures forall id :: id in ids <==> id in v.members
    ensures forall i, j | 0 <= i < j < |ids| :: ids[i] != ids[j]
  {
    StrLessTotal();
    var ids := Sorted(v.members.Keys, StrLess);
    AscendingDistinct(ids, StrLess);
    assert forall id :: id in ids <==> id in Elements(ids);
    ids
  }

  function MemberEvents(v: View, ids: seq<string>): seq<Event>
    requires forall id | id in ids :: id in v.members
  {
    seq(|ids|, i requires 0 <= i < |ids| => EntryEvent(ids[i], v.members[ids[i]]))
  }

  /** Everything the node holds, itself first. */
  function FullState(v: View): seq<Event> {
    [SelfEvent(v)] + MemberEvents(v, MemberIds(v))
  }

  ghost predicate OnePerNode(evs: seq<Event>) {
    forall i, j | 0 <= i < j < |evs| :: evs[i].nodeId != evs[j].nodeId
  }

  lemma FullStateAt(v: View, i: nat)
    requires i < |FullState(v)|
    ensures |FullState(v)| == |MemberIds(v)| + 1
    ensures i == 0 ==> FullState(v)[i] == SelfEvent(v)
    ensures i > 0 ==> MemberIds(v)[i - 1] in v.members &&
                      FullState(v)[i] == EntryEvent(MemberIds(v)[i - 1], v.members[MemberIds(v)[i - 1]])
  {
    hide EntryEvent, SelfEvent;
    var ids := MemberIds(v);
    if i > 0 {
      assert ids[i - 1] in ids;
      assert MemberEvents(v, ids)[i - 1] == EntryEvent(ids[i - 1], v.members[ids[i - 1]]);
    }
  }

  lemma FullStateOnePerNode(v: View)
    requires WellFormed(v)
    ensures OnePerNode(FullState(v))
  {
    hide FullState, MemberIds;
    forall i, j | 0 <= i < j < |FullState(v)| ensures FullState(v)[i].nodeId != FullState(v)[j].nodeId {
      FullStateAt(v, i);
      FullStateAt(v, j);
    }
  }

  lemma FullStateHasSelf(v: View)
    ensures SelfEvent(v) in FullState(v)
  {
    hide SelfEvent, MemberIds, MemberEvents;
    assert FullState(v)[0] == SelfEvent(v);
  }

  lemma FullStateHas(v: View, id: string)
    requires id in v.members
    ensures EntryEvent(id, v.members[id]) in FullState(v)
  {
    var ids := MemberIds(v);
    var i :| 0 <= i < |ids| && ids[i] == id;
    FullStateAt(v, i + 1);
    assert FullState(v)[i + 1] in FullState(v);
  }

  /**
   The full state says exactly one thing about every node the view knows: where it
   is, its incarnation, and that it is dead, gone or alive.
   */
  lemma FullStateSays(v: View)
    requires WellFormed(v)
    ensures
      Events.Event(if v.left then Events.Leave else Events.Alive,
                   v.self.nodeId, v.self.host, v.self.port, v.incarnation) in FullState(v)
    ensures forall id | id in v.members ::
              var e := v.members[id];
              Events.Event(if e.state.Dead? then Events.Dead else if e.state.Left? then Events.Leave else Events.Alive,
                           id, e.info.host, e.info.port, e.incarnation) in FullState(v)
    ensures OnePerNode(FullState(v))
    ensures SelfEvent(v) in FullState(v)
    ensures forall id | id in v.members :: EntryEvent(id, v.members[id]) in FullState(v)
    ensures forall ev | ev in FullState(v) ::
              ev == SelfEvent(v) || (ev.nodeId in v.members && ev == EntryEvent(ev.nodeId, v.members[ev.nodeId]))
  {
    hide FullState;
    FullStateOnePerNode(v);
    FullStateHasSelf(v);
    forall id | id in v.members ensures EntryEvent(id, v.members[id]) in FullState(v) { FullStateHas(v, id); }
    forall ev | ev in FullState(v)
      ensures ev == SelfEvent(v) || (ev.nodeId in v.members && ev == EntryEvent(ev.nodeId, v.members[ev.nodeId]))
    {
      var i :| 0 <= i < |FullState(v)| && FullState(v)[i] == ev;
      FullStateAt(v, i);
    }
  }

  // -------------------------------------------------------------------------
  // Applying a list of events
  // -------------------------------------------------------------------------

  function DeliverAll(v: View, evs: seq<Event>, now: nat): View {
    if evs == [] then v else Deliver(DeliverAll(v, evs[..|evs| - 1], now), evs[|evs| - 1], now).view
  }

  /** What a relayed event does to the entry it names. */
  function Absorb(ev: Event, held: Option<Entry>, now: nat): Option<Entry> {
    if Wins(ev, held) then Some(Adopted(ev, held, now)) else held
  }

  lemma DeliverLocal(v: View, ev: Event, now: nat, id: string)
    requires id != v.self.nodeId
    ensures
      var w := Deliver(v, ev, now).view;
      Lookup(w, id) == if ev.nodeId == id then Absorb(ev, Lookup(v, id), now) else Lookup(v, id)
  {
  }

  lemma DeliverElsewhere(v: View, ev: Event, now: nat)
    ensures
      var w := Deliver(v, ev, now).view;
      && w.self == v.self
      && (ev.nodeId != v.self.nodeId ==> w.incarnation == v.incarnation && w.left == v.left)
      && (ev.nodeId == v.self.nodeId ==>
            w.incarnation == DeliverSelf(v, ev).view.incarnation && w.left == DeliverSelf(v, ev).view.left)
  {
  }

  /** A list with nothing about `id` leaves it alone. */
  lemma {:induction false} DeliverAllSilent(v: View, evs: seq<Event>, now: nat, id: string)
    requires forall ev | ev in evs :: ev.nodeId != id
    ensures DeliverAll(v, evs, now).self == v.self
    ensures id != v.self.nodeId ==> Lookup(DeliverAll(v, evs, now), id) == Lookup(v, id)
    ensures id == v.self.nodeId ==>
              DeliverAll(v, evs, now).incarnation == v.incarnation && DeliverAll(v, evs, now).left == v.left
    decreases |evs|
  {
    hide Deliver, Lookup;
    if evs != [] {
      var init := evs[..|evs| - 1];
      assert evs[|evs| - 1] in evs && forall ev | ev in init :: ev in evs;
      DeliverAllSilent(v, init, now, id);
      DeliverElsewhere(DeliverAll(v, init, now), evs[|evs| - 1], now);
      if id != v.self.nodeId { DeliverLocal(DeliverAll(v, init, now), evs[|evs| - 1], now, id); }
    }
  }

  /** A list that says one thing about `id` does to it what that event alone does. */
  lemma {:induction false} DeliverAllOne(v: View, evs: seq<Event>, now: nat, ev: Event)
    requires OnePerNode(evs) && ev in evs
    ensures DeliverAll(v, evs, now).self == v.self
    ensures ev.nodeId != v.self.nodeId ==>
              Lookup(DeliverAll(v, evs, now), ev.nodeId) == Absorb(ev, Lookup(v, ev.nodeId), now)
    ensures ev.nodeId == v.self.nodeId ==>
              var w, u := DeliverAll(v, evs, now), DeliverSelf(v, ev).view;
              w.incarnation == u.incarnation && w.left == u.left
    decreases |evs|
  {
    hide Deliver, Lookup, Absorb;
    var init, last := evs[..|evs| - 1], evs[|evs| - 1];
    DeliverElsewhere(DeliverAll(v, init, now), last, now);
    if last == ev {
      assert forall x | x in init :: x.nodeId != ev.nodeId;
      DeliverAllSilent(v, init, now, ev.nodeId);
      if ev.nodeId != v.self.nodeId { DeliverLocal(DeliverAll(v, init, now), ev, now, ev.nodeId); }
    } else {
      assert ev in init && last.nodeId != ev.nodeId;
      DeliverAllOne(v, init, now, ev);
      if ev.nodeId != v.self.nodeId { DeliverLocal(DeliverAll(v, init, now), last, now, ev.nodeId); }
    }
  }

  lemma {:induction false} DeliverAllWellFormed(v: View, evs: seq<Event>, now: nat)
    requires WellFormed(v)
    ensures WellFormed(DeliverAll(v, evs, now)) && DeliverAll(v, evs, now).self == v.self
    decreases |evs|
  {
    if evs != [] { DeliverAllWellFormed(v, evs[..|evs| - 1], now); }
  }

  /** What `v` holds about a third party after receiving the full state of `u`. */
  lemma HearFullState(v: View, u: View, now: nat, id: string)
    requires WellFormed(u) && id != v.self.nodeId
    ensures Lookup(DeliverAll(v, FullState(u), now), id) ==
            if id == u.self.nodeId then Absorb(SelfEvent(u), Lookup(v, id), now)
            else if id in u.members then Absorb(EntryEvent(id, u.members[id]), Lookup(v, id), now)
            else Lookup(v, id)
  {
    FullStateSays(u);
    if id == u.self.nodeId {
      DeliverAllOne(v, FullState(u), now, SelfEvent(u));
    } else if id in u.members {
      DeliverAllOne(v, FullState(u), now, EntryEvent(id, u.members[id]));
    } else {
      DeliverAllSilent(v, FullState(u), now, id);
    }
  }

  /** What `v` holds about itself after receiving the full state of `u`. */
  lemma HearAboutSelf(v: View, u: View, now: nat)
    requires WellFormed(u) && v.self.nodeId != u.self.nodeId
    ensures
      var w, id := DeliverAll(v, FullState(u), now), v.self.nodeId;
      var x := if id in u.members then DeliverSelf(v, EntryEvent(id, u.members[id])).view else v;
      w.self == v.self && w.incarnation == x.incarnation && w.left == x.left
  {
    FullStateSays(u);
    var id := v.self.nodeId;
    if id in u.members {
      DeliverAllOne(v, FullState(u), now, EntryEvent(id, u.members[id]));
    } else {
      DeliverAllSilent(v, FullState(u), now, id);
    }
  }

  /** A node heard of for the first time is filed under the address, incarnation and class the teller holds. */
  lemma LearnsAddress(v: View, u: View, now: nat, id: string)
    requires WellFormed(u) && id in u.members && id != u.self.nodeId && id != v.self.nodeId && id !in v.members
    ensures
      var w, e := DeliverAll(v, FullState(u), now), u.members[id];
      && id in w.members && w.members[id].info == NodeInfo(id, e.info.host, e.info.port)
      && w.members[id].incarnation == e.incarnation
      && w.members[id].state == if e.state.Suspect? then Alive else e.state
  {
    hide DeliverAll, FullState;
    HearFullState(v, u, now, id);
  }

  /** And so is the teller itself. */
  lemma LearnsTeller(v: View, u: View, now: nat)
    requires WellFormed(u) && u.self.nodeId != v.self.nodeId && u.self.nodeId !in v.members
    ensures
      var w, id := DeliverAll(v, FullState(u), now), u.self.nodeId;
      id in w.members && w.members[id] == Entry(u.self, if u.left then Left else Alive, u.incarnation, 0)
  {
    hide DeliverAll, FullState;
    HearFullState(v, u, now, u.self.nodeId);
  }

  // -------------------------------------------------------------------------
  // The exchange
  // -------------------------------------------------------------------------

  /** The responder after the requester's push. */
  function Answered(a: View, b: View, now: nat): View { DeliverAll(b, FullState(a), now) }

  /** The requester after the responder's reply. */
  function Completed(a: View, b: View, now: nat): View { DeliverAll(a, FullState(Answered(a, b, now)), now) }

  /** The responder once the refutation the exchange provoked at the requester, if any, has reached it. */
  function Settle(a: View, b: View, now: nat): View {
    var a1, b1 := Completed(a, b, now), Answered(a, b, now);
    if a1.incarnation > a.incarnation then Deliver(b1, AliveSelf(a1, a1.incarnation), now).view else b1
  }

  /** The push-pull of one entry: the responder absorbs ours, we absorb the result, and the classes agree. */
  lemma MergeEntries(id: string, ra: Option<Entry>, rb: Option<Entry>, now: nat)
    ensures
      var rb' := if ra.Some? then Absorb(EntryEvent(id, ra.value), rb, now) else rb;
      var ra' := if rb'.Some? then Absorb(EntryEvent(id, rb'.value), ra, now) else ra;
      Seen(ra') == Seen(rb')
  {
  }

  /** One exchange makes both sides agree about every third party. */
  lemma ThirdPartiesAgree(a: View, b: View, now: nat, id: string)
    requires WellFormed(a) && WellFormed(b) && a.self.nodeId != b.self.nodeId
    requires id != a.self.nodeId && id != b.self.nodeId
    ensures About(Completed(a, b, now), id) == About(Answered(a, b, now), id)
  {
    var b1 := Answered(a, b, now);
    DeliverAllWellFormed(b, FullState(a), now);
    DeliverAllWellFormed(a, FullState(b1), now);
    HearFullState(b, a, now, id);
    HearFullState(a, b1, now, id);
    MergeEntries(id, Lookup(a, id), Lookup(b, id), now);
  }

  /** `v` holds the live node `u` alive at an incarnation above the one `u` has. */
  predicate Overhangs(v: View, u: View) {
    !u.left && u.self.nodeId in v.members &&
    v.members[u.self.nodeId].state in {Alive, Suspect} && v.members[u.self.nodeId].incarnation > u.incarnation
  }

  /** What the requester ends up holding about the responder. */
  lemma ResponderSeen(a: View, b: View, now: nat)
    requires WellFormed(a) && WellFormed(b) && a.self.nodeId != b.self.nodeId
    ensures About(Completed(a, b, now), b.self.nodeId) != Some(Digested('D', 0))
    ensures About(Completed(a, b, now), b.self.nodeId) == About(Answered(a, b, now), b.self.nodeId) <==>
              !Overhangs(a, b)
  {
    hide DeliverAll, FullState, Absorb, DeliverSelf;
    var b1 := Answered(a, b, now);
    ExchangeSelves(a, b, now);
    HearAboutSelf(b, a, now);
    HearFullState(a, b1, now, b.self.nodeId);
    RefuteEntry(b, b1, Lookup(a, b.self.nodeId), now);
  }

  /** One node's entry for another, after the other has answered for itself. */
  lemma RefuteEntry(b: View, b1: View, held: Option<Entry>, now: nat)
    requires b1.self == b.self
    requires
      var x := if held.Some? then DeliverSelf(b, EntryEvent(b.self.nodeId, held.value)).view else b;
      b1.incarnation == x.incarnation && b1.left == x.left
    ensures
      var r := Absorb(SelfEvent(b1), held, now);
      r.Some? && !r.value.state.Dead? &&
      (Seen(r) == Some(SeenSelf(b1)) <==>
       !(!b.left && held.Some? && held.value.state in {Alive, Suspect} && held.value.incarnation > b.incarnation))
  {
  }

  /** The exchange renames nobody. */
  lemma ExchangeSelves(a: View, b: View, now: nat)
    requires WellFormed(a) && WellFormed(b)
    ensures Answered(a, b, now).self == b.self && Completed(a, b, now).self == a.self
    ensures WellFormed(Answered(a, b, now)) && WellFormed(Completed(a, b, now))
  {
    DeliverAllWellFormed(b, FullState(a), now);
    DeliverAllWellFormed(a, FullState(Answered(a, b, now)), now);
  }

  /** What the responder ends up holding about the requester, once any refutation has arrived. */
  lemma RequesterSeen(a: View, b: View, now: nat)
    requires WellFormed(a) && WellFormed(b) && a.self.nodeId != b.self.nodeId
    ensures About(Settle(a, b, now), a.self.nodeId) == About(Completed(a, b, now), a.self.nodeId) <==> !Overhangs(b, a)
  {
    hide DeliverAll, FullState;
    var b1, a1 := Answered(a, b, now), Completed(a, b, now);
    ExchangeSelves(a, b, now);
    HearFullState(b, a, now, a.self.nodeId);
    HearAboutSelf(a, b1, now);
    RequesterSettled(a, b, a1, b1, now);
  }

  lemma RequesterSettled(a: View, b: View, a1: View, b1: View, now: nat)
    requires a1.self == a.self && b1.self == b.self && a.self.nodeId != b.self.nodeId
    requires Lookup(b1, a.self.nodeId) == Absorb(SelfEvent(a), Lookup(b, a.self.nodeId), now)
    requires
      var id := a.self.nodeId;
      var x := if id in b1.members then DeliverSelf(a, EntryEvent(id, b1.members[id])).view else a;
      a1.incarnation == x.incarnation && a1.left == x.left
    ensures
      var b2 := if a1.incarnation > a.incarnation then Deliver(b1, AliveSelf(a1, a1.incarnation), now).view else b1;
      About(b2, a.self.nodeId) == About(a1, a.self.nodeId) <==> !Overhangs(b, a)
  {
    hide Deliver, Absorb, DeliverSelf;
    var id := a.self.nodeId;
    AnnounceWins(a, Lookup(b, id), now);
    AnnounceEntry(a, a1, Lookup(b, id), now);
    DeliverLocal(b1, AliveSelf(a1, a1.incarnation), now, id);
    DeliverElsewhere(b1, AliveSelf(a1, a1.incarnation), now);
  }

  lemma AnnounceWins(a: View, held: Option<Entry>, now: nat)
    ensures Absorb(SelfEvent(a), held, now).Some?
  {
  }

  lemma AnnounceEntry(a: View, a1: View, held: Option<Entry>, now: nat)
    requires a1.self == a.self
    requires
      var r := Absorb(SelfEvent(a), held, now);
      r.Some? && var x := DeliverSelf(a, EntryEvent(a.self.nodeId, r.value)).view;
      a1.incarnation == x.incarnation && a1.left == x.left
    ensures
      var r := Absorb(SelfEvent(a), held, now);
      var r' := if a1.incarnation > a.incarnation then Absorb(AliveSelf(a1, a1.incarnation), r, now) else r;
      Seen(r') == Some(SeenSelf(a1)) <==>
      !(!a.left && held.Some? && held.value.state in {Alive, Suspect} && held.value.incarnation > a.incarnation)
  {
  }

  /** The refutation changes nothing else at the responder. */
  lemma SettleElsewhere(a: View, b: View, now: nat, id: string)
    requires WellFormed(a) && WellFormed(b) && a.self.nodeId != b.self.nodeId && id != a.self.nodeId
    ensures About(Settle(a, b, now), id) == About(Answered(a, b, now), id)
  {
    hide Answered, Completed, Deliver, About;
    ExchangeSelves(a, b, now);
    RefutationElsewhere(Completed(a, b, now), Answered(a, b, now), now, id);
  }

  lemma RefutationElsewhere(a1: View, b1: View, now: nat, id: string)
    requires a1.self.nodeId != b1.self.nodeId && id != a1.self.nodeId
    ensures About(Deliver(b1, AliveSelf(a1, a1.incarnation), now).view, id) == About(b1, id)
  {
    DeliverElsewhere(b1, AliveSelf(a1, a1.incarnation), now);
    if id != b1.self.nodeId { DeliverLocal(b1, AliveSelf(a1, a1.incarnation), now, id); }
  }

  /**
   Sync convergence, exactly.  From any two views, one uninterrupted exchange plus
   at most one refutation from the requester makes the abstract views, and so the
   digests, coincide if and only if neither side held the other alive at an
   incarnation above the other's own.
   */
  lemma SyncConvergesIff(a: View, b: View, now: nat)
    requires WellFormed(a) && WellFormed(b) && a.self.nodeId != b.self.nodeId
    ensures Abs(Completed(a, b, now)) == Abs(Settle(a, b, now)) <==> !Overhangs(a, b) && !Overhangs(b, a)
  {
    var a1, b2 := Completed(a, b, now), Settle(a, b, now);
    ResponderSeen(a, b, now);
    RequesterSeen(a, b, now);
    SettleElsewhere(a, b, now, b.self.nodeId);
    AbsEqual(a1, b2);
    if !Overhangs(a, b) && !Overhangs(b, a) {
      forall id ensures About(a1, id) == About(b2, id) {
        if id != a.self.nodeId && id != b.self.nodeId {
          ThirdPartiesAgree(a, b, now, id);
          SettleElsewhere(a, b, now, id);
        }
      }
    }
  }

  // -------------------------------------------------------------------------
  // Any number of exchanges
  // -------------------------------------------------------------------------

  /** One exchange, asked for by `a` or by `b`, and any refutation it provokes delivered. */
  datatype Round = Round(aAsks: bool, now: nat)

  function Exchanged(a: View, b: View, r: Round): (View, View) {
    if r.aAsks then (Completed(a, b, r.now), Settle(a, b, r.now)) else (Settle(b, a, r.now), Completed(b, a, r.now))
  }

  function ExchangedAll(a: View, b: View, rs: seq<Round>): (View, View) {
    if rs == [] then (a, b)
    else
      var (x, y) := ExchangedAll(a, b, rs[..|rs| - 1]);
      Exchanged(x, y, rs[|rs| - 1])
  }

  ghost predicate Pair(a: View, b: View) { WellFormed(a) && WellFormed(b) && a.self.nodeId != b.self.nodeId }

  lemma SettleWellFormed(a: View, b: View, now: nat)
    requires Pair(a, b)
    ensures WellFormed(Settle(a, b, now)) && Settle(a, b, now).self == b.self
  {
    hide Answered, Completed, Deliver;
    ExchangeSelves(a, b, now);
    var b1, ev := Answered(a, b, now), AliveSelf(Completed(a, b, now), Completed(a, b, now).incarnation);
    DeliverAllWellFormed(b1, [ev], now);
    assert [ev][..0] == [] && DeliverAll(b1, [], now) == b1;
  }

  lemma ExchangedPair(a: View, b: View, r: Round)
    requires Pair(a, b)
    ensures Pair(Exchanged(a, b, r).0, Exchanged(a, b, r).1)
    ensures Exchanged(a, b, r).0.self == a.self && Exchanged(a, b, r).1.self == b.self
  {
    hide Completed, Settle, WellFormed;
    if r.aAsks {
      ExchangeSelves(a, b, r.now);
      SettleWellFormed(a, b, r.now);
    } else {
      ExchangeSelves(b, a, r.now);
      SettleWellFormed(b, a, r.now);
    }
  }

  /** A node told that it is alive learns nothing about itself. */
  lemma ToldAlive(u: View, e: Entry)
    requires e.state in {Alive, Suspect}
    ensures DeliverSelf(u, EntryEvent(u.self.nodeId, e)).view == u
  {
  }

  /** A node held alive above its own incarnation cannot correct that by announcing itself. */
  lemma AnnouncedTooLow(u: View, held: Option<Entry>, now: nat)
    requires !u.left && held.Some? && held.value.state in {Alive, Suspect} && held.value.incarnation > u.incarnation
    ensures Absorb(SelfEvent(u), held, now) == held
  {
  }

  lemma OverhangStaysAsking(a: View, b: View, now: nat)
    requires Pair(a, b) && Overhangs(a, b)
    ensures Overhangs(Completed(a, b, now), Answered(a, b, now))
    ensures Answered(a, b, now).incarnation == b.incarnation && !Answered(a, b, now).left
  {
    hide DeliverAll, FullState, Absorb, DeliverSelf, EntryEvent;
    var b1 := Answered(a, b, now);
    ExchangeSelves(a, b, now);
    HearAboutSelf(b, a, now);
    ToldAlive(b, a.members[b.self.nodeId]);
    HearFullState(a, b1, now, b.self.nodeId);
    AnnouncedTooLow(b1, Lookup(a, b.self.nodeId), now);
  }

  lemma OverhangStaysAsked(a: View, b: View, now: nat)
    requires Pair(a, b) && Overhangs(a, b)
    ensures Overhangs(Answered(b, a, now), Completed(b, a, now))
    ensures Completed(b, a, now).incarnation == b.incarnation
  {
    hide DeliverAll, FullState, Absorb, DeliverSelf, EntryEvent;
    var a1 := Answered(b, a, now);
    ExchangeSelves(b, a, now);
    HearFullState(a, b, now, b.self.nodeId);
    AnnouncedTooLow(b, Lookup(a, b.self.nodeId), now);
    HearAboutSelf(b, a1, now);
    ToldAlive(b, a1.members[b.self.nodeId]);
  }

  lemma OverhangStays(a: View, b: View, r: Round)
    requires Pair(a, b) && Overhangs(a, b)
    ensures Overhangs(Exchanged(a, b, r).0, Exchanged(a, b, r).1)
  {
    hide Completed, Answered, Deliver;
    if r.aAsks {
      OverhangStaysAsking(a, b, r.now);
      ExchangeSelves(a, b, r.now);
      var a1 := Completed(a, b, r.now);
      DeliverElsewhere(Answered(a, b, r.now), AliveSelf(a1, a1.incarnation), r.now);
    } else {
      OverhangStaysAsked(a, b, r.now);
    }
  }

  lemma OverhangSymmetric(a: View, b: View, r: Round)
    requires Pair(a, b) && Overhangs(b, a)
    ensures Overhangs(Exchanged(a, b, r).1, Exchanged(a, b, r).0)
  {
    hide Completed, Settle, Overhangs;
    OverhangStays(b, a, Round(!r.aAsks, r.now));
  }

  lemma OverhangDisagrees(a: View, b: View)
    requires Overhangs(a, b) && a.self.nodeId != b.self.nodeId
    ensures Abs(a) != Abs(b)
  {
    AbsEqual(a, b);
    assert About(a, b.self.nodeId) != About(b, b.self.nodeId);
  }

  /** An overhang is permanent: no number of exchanges, whoever asks, makes the two views agree. */
  lemma {:induction false} OverhangForever(a: View, b: View, rs: seq<Round>)
    requires Pair(a, b) && (Overhangs(a, b) || Overhangs(b, a))
    ensures
      var (x, y) := ExchangedAll(a, b, rs);
      Pair(x, y) && (Overhangs(x, y) || Overhangs(y, x)) && Abs(x) != Abs(y)
    decreases |rs|
  {
    hide Exchanged, Overhangs, Abs, WellFormed;
    if rs != [] {
      var (x, y) := ExchangedAll(a, b, rs[..|rs| - 1]);
      var r := rs[|rs| - 1];
      OverhangForever(a, b, rs[..|rs| - 1]);
      ExchangedPair(x, y, r);
      if Overhangs(x, y) { OverhangStays(x, y, r); } else { OverhangSymmetric(x, y, r); }
    }
    var (x, y) := ExchangedAll(a, b, rs);
    if Overhangs(x, y) { OverhangDisagrees(x, y); } else { OverhangDisagrees(y, x); }
  }

  ghost predicate AgreeAfter(a: View, b: View, rs: seq<Round>) {
    Abs(ExchangedAll(a, b, rs).0) == Abs(ExchangedAll(a, b, rs).1)
  }

  /** Syncing again does not help: if one exchange leaves the views apart, so does any number. */
  lemma EventuallyAgreeIff(a: View, b: View)
    requires Pair(a, b)
    ensures (exists rs :: rs != [] && AgreeAfter(a, b, rs)) <==> !Overhangs(a, b) && !Overhangs(b, a)
  {
    hide Abs, Overhangs, Completed, Settle, WellFormed;
    if Overhangs(a, b) || Overhangs(b, a) {
      forall rs: seq<Round> ensures !AgreeAfter(a, b, rs) { OverhangForever(a, b, rs); }
    } else {
      SyncConvergesIff(a, b, 0);
      var rs := [Round(true, 0)];
      assert rs[..0] == [] && ExchangedAll(a, b, []) == (a, b);
      assert ExchangedAll(a, b, rs) == Exchanged(a, b, rs[0]);
      assert AgreeAfter(a, b, rs);
    }
  }

  // -------------------------------------------------------------------------
  // The digest
  // -------------------------------------------------------------------------

  /** The `k` low bytes of `n`, least significant first. */
  function LowBytes(n: nat, k: nat): string {
    if k == 0 then [] else [(n % 256) as char] + LowBytes(n / 256, k - 1)
  }

  /** One entry as the text that is hashed: id, class and incarnation, separated by 0x01. */
  function Rendered(id: string, d: Digested): string {
    id + [1 as char] + ([d.cls, 1 as char] + LowBytes(d.incarnation, 8))
  }

  function Pow256(k: nat): nat { if k == 0 then 1 else 256 * Pow256(k - 1) }

  lemma {:induction false} LowBytesInjective(m: nat, n: nat, k: nat)
    requires m < Pow256(k) && n < Pow256(k) && LowBytes(m, k) == LowBytes(n, k)
    ensures m == n
  {
    if k > 0 {
      var a, b := LowBytes(m, k), LowBytes(n, k);
      assert a[0] == b[0] && a[1..] == LowBytes(m / 256, k - 1) && b[1..] == LowBytes(n / 256, k - 1);
      LowBytesInjective(m / 256, n / 256, k - 1);
    }
  }

  /** Different entries are hashed as different texts. */
  lemma RenderedInjective(i: string, d: Digested, j: string, e: Digested)
    requires 1 as char !in i && 1 as char !in j && d.incarnation < TWO64 && e.incarnation < TWO64
    requires Rendered(i, d) == Rendered(j, e)
    ensures i == j && d == e
  {
    var x, y := [d.cls, 1 as char] + LowBytes(d.incarnation, 8), [e.cls, 1 as char] + LowBytes(e.incarnation, 8);
    CutAt(i, 1 as char, x);
    CutAt(j, 1 as char, y);
    assert x == y && x[0] == y[0] && x[2..] == y[2..];
    assert x[2..] == LowBytes(d.incarnation, 8) && y[2..] == LowBytes(e.incarnation, 8);
    assert Pow256(8) == TWO64 by {
      assert Pow256(2) == 65536 && Pow256(4) == 0x1_0000_0000;
    }
    LowBytesInjective(d.incarnation, e.incarnation, 8);
  }

  /** The XOR of all entry hashes, in no particular order. */
  ghost function XorAll(hash: string -> bv64, m: map<string, Digested>): bv64
    decreases |m|
  {
    if m == map[] then 0
    else
      var id :| id in m;
      assert (m - {id}).Keys == m.Keys - {id};
      Xor(hash(Rendered(id, m[id])), XorAll(hash, m - {id}))
  }

  lemma XorFirst(hash: string -> bv64, m: map<string, Digested>) returns (id: string)
    requires m != map[]
    ensures id in m && XorAll(hash, m) == Xor(hash(Rendered(id, m[id])), XorAll(hash, m - {id}))
  {
    hide Rendered, Xor;
    id :| id in m && XorAll(hash, m) == Xor(hash(Rendered(id, m[id])), XorAll(hash, m - {id}));
  }

  /** Any entry may be taken out first: the digest does not depend on the order of the map. */
  lemma {:induction false} XorTakeOut(hash: string -> bv64, m: map<string, Digested>, k: string)
    requires k in m
    ensures XorAll(hash, m) == Xor(hash(Rendered(k, m[k])), XorAll(hash, m - {k}))
    decreases |m|
  {
    hide Rendered, XorAll, Xor;
    var id := XorFirst(hash, m);
    if id != k {
      assert (m - {id}).Keys == m.Keys - {id} && (m - {k}).Keys == m.Keys - {k};
      XorTakeOut(hash, m - {id}, k);
      XorTakeOut(hash, m - {k}, id);
      assert m - {id} - {k} == m - {k} - {id};
      XorSwap(hash(Rendered(id, m[id])), hash(Rendered(k, m[k])), XorAll(hash, m - {id} - {k}));
    }
  }

  lemma XorAdd(hash: string -> bv64, m: map<string, Digested>, k: string, d: Digested)
    requires k !in m
    ensures XorAll(hash, m[k := d]) == Xor(hash(Rendered(k, d)), XorAll(hash, m))
  {
    hide XorAll, Rendered, Xor;
    XorTakeOut(hash, m[k := d], k);
    assert m[k := d] - {k} == m;
  }

  /** After a converging exchange the two digests are equal, so no further sync is triggered. */
  lemma ConvergedDigestsEqual(hash: string -> bv64, a: View, b: View, now: nat)
    requires WellFormed(a) && WellFormed(b) && a.self.nodeId != b.self.nodeId
    requires !Overhangs(a, b) && !Overhangs(b, a)
    ensures XorAll(hash, Abs(Completed(a, b, now))) == XorAll(hash, Abs(Settle(a, b, now)))
  {
    SyncConvergesIff(a, b, now);
  }
}
