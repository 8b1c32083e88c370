/**
 The gossip thread's conversations: a list of events taken in, the push-pull
 sync between two nodes over the wire, and a join through a seed.
 */
module GossipThreads {
  import opened Text
  import opened Nodes
  import opened Routers
  import opened Membership
  import opened Sync
  import opened Swims
  import opened Gossip
  import Events

  function Receives(evs: seq<Event>, now: nat): seq<Op> {
    seq(|evs|, i requires 0 <= i < |evs| => OpReceive(evs[i], now))
  }

  /** A whole list of incoming events. */
  function ReceiveAll(hash: string -> nat, n: NodeState, evs: seq<Event>, now: nat): NodeState {
    NodeRun(hash, n, Receives(evs, now))
  }

  lemma ReceiveNone(hash: string -> nat, n: NodeState, evs: seq<Event>, now: nat)
    ensures ReceiveAll(hash, n, evs[..0], now) == n
  {
  }

  lemma ReceiveNext(hash: string -> nat, n: NodeState, evs: seq<Event>, i: nat, now: nat)
    requires i < |evs|
    ensures ReceiveAll(hash, n, evs[..i + 1], now) ==
            NodeApply(hash, ReceiveAll(hash, n, evs[..i], now), OpReceive(evs[i], now))
  {
    assert Receives(evs[..i + 1], now)[..i] == Receives(evs[..i], now);
  }

  /** On valid ids, the queue and the ring aside, receiving is delivering. */
  lemma {:induction false} ReceiveAllDelivers(hash: string -> nat, n: NodeState, evs: seq<Event>, now: nat)
    requires forall ev | ev in evs :: Events.ValidId(ev.nodeId)
    ensures ReceiveAll(hash, n, evs, now).swim.view == DeliverAll(n.swim.view, evs, now)
    decreases |evs|
  {
    hide Events.ValidId, Deliver, ReceiveAll;
    if evs == [] {
      ReceiveNone(hash, n, evs, now);
      assert evs[..0] == evs;
    } else {
      var init, last := evs[..|evs| - 1], evs[|evs| - 1];
      assert last in evs && forall ev | ev in init :: ev in evs;
      ReceiveAllDelivers(hash, n, init, now);
      ReceiveNext(hash, n, evs, |evs| - 1, now);
      assert evs[..|evs|] == evs;
    }
  }

  /** Queued: will ride on the coming messages. */
  ghost predicate Queued(s: SwimState, ev: Event) { exists p | p in s.pending :: p.event == ev && p.remaining > 0 }

  lemma QueuedAfter(s: SwimState, ev: Event, x: Event)
    ensures Queued(Enqueue(s, ev), ev)
    ensures Queued(s, x) ==> Queued(Enqueue(s, ev), x)
  {
    var t := Enqueue(s, ev);
    assert t.pending[|s.pending|].event == ev;
    if Queued(s, x) {
      var p :| p in s.pending && p.event == x && p.remaining > 0;
      assert p in t.pending;
    }
  }

  lemma ReceiveQueues(s: SwimState, ev: Event, now: nat)
    ensures
      var t := Receive(s, ev, now).state;
      && t.view.self == s.view.self && t.view.incarnation >= s.view.incarnation
      && (t.view.incarnation > s.view.incarnation ==> Queued(t, AliveSelf(t.view, t.view.incarnation)))
      && forall x | Queued(s, x) :: Queued(t, x)
  {
    hide Queued, Enqueue, Events.ValidId;
    var o := Deliver(s.view, ev, now);
    var s' := s.(view := o.view);
    QueuedView(s, o.view);
    forall x ensures Queued(s, x) ==> Queued(Receive(s, ev, now).state, x) {
      if o.refutation.Some? {
        EnqueueView(s', o.refutation.value);
        QueuedAfter(s', o.refutation.value, x);
        QueuedAfter(Enqueue(s', o.refutation.value), ev, x);
      } else {
        QueuedAfter(s', ev, x);
      }
    }
    EnqueueView(s', ev);
    if o.refutation.Some? {
      var a := o.refutation.value;
      EnqueueView(s', a);
      EnqueueView(Enqueue(s', a), ev);
      QueuedAfter(s', a, a);
      QueuedAfter(Enqueue(s', a), ev, a);
    }
  }

  lemma QueuedView(s: SwimState, v: View)
    ensures forall x :: Queued(s, x) <==> Queued(s.(view := v), x)
  {
  }

  lemma EnqueueView(s: SwimState, ev: Event)
    ensures Enqueue(s, ev).view == s.view
  {
  }

  /** A node that raised its incarnation while taking in a list has its refutation queued. */
  lemma {:induction false} RefutationQueued(hash: string -> nat, n: NodeState, evs: seq<Event>, now: nat)
    ensures
      var t := ReceiveAll(hash, n, evs, now).swim;
      && t.view.self == n.swim.view.self && t.view.incarnation >= n.swim.view.incarnation
      && (t.view.incarnation > n.swim.view.incarnation ==> Queued(t, AliveSelf(t.view, t.view.incarnation)))
    decreases |evs|
  {
    hide Queued, Receive, ReceiveAll, OnNotices;
    if evs == [] {
      ReceiveNone(hash, n, evs, now);
      assert evs[..0] == evs;
    } else {
      var init := evs[..|evs| - 1];
      RefutationQueued(hash, n, init, now);
      ReceiveNext(hash, n, evs, |evs| - 1, now);
      assert evs[..|evs|] == evs;
      ReceiveQueues(ReceiveAll(hash, n, init, now).swim, evs[|evs| - 1], now);
    }
  }

  // -------------------------------------------------------------------------
  // The wire
  // -------------------------------------------------------------------------

  /** An address the text form can carry. */
  predicate Addressable(info: NodeInfo) {
    info.port < 65536 && ':' !in info.host && ';' !in info.host && '|' !in info.host
  }

  /** A view whose every fact has a faithful text form, incarnations below `bound`. */
  ghost predicate Sendable(v: View, bound: nat) {
    && WellFormed(v)
    && Events.ValidId(v.self.nodeId) && Addressable(v.self) && v.incarnation < bound
    && forall id | id in v.members ::
         Events.ValidId(id) && Addressable(v.members[id].info) && v.members[id].incarnation < bound
  }

  ghost predicate Carries(ev: Event, bound: nat) {
    Events.WireSafe(ev) && Events.ValidId(ev.nodeId) && ev.incarnation < bound
  }

  lemma ValidIdPlain(id: string)
    requires Events.ValidId(id)
    ensures ':' !in id && ';' !in id && '|' !in id
  {
    assert forall c | c in id :: Events.ValidIdChar(c);
  }

  lemma FullStateCarries(v: View, bound: nat)
    requires Sendable(v, bound) && bound <= TWO64
    ensures forall ev | ev in FullState(v) :: Carries(ev, bound)
  {
    hide FullState, Events.ValidId;
    FullStateSays(v);
    forall ev | ev in FullState(v) ensures Carries(ev, bound) {
      ValidIdPlain(ev.nodeId);
    }
  }

  lemma DeliverSendable(v: View, ev: Event, now: nat, bound: nat)
    requires Sendable(v, bound + 1) && Carries(ev, bound)
    ensures Sendable(Deliver(v, ev, now).view, bound + 1)
  {
    hide Events.ValidId;
  }

  /** Hearing what is sendable below a bound keeps a view sendable one above it. */
  lemma {:induction false} DeliverAllSendable(v: View, evs: seq<Event>, now: nat, bound: nat)
    requires Sendable(v, bound) && forall ev | ev in evs :: Carries(ev, bound)
    ensures Sendable(DeliverAll(v, evs, now), bound + 1)
    decreases |evs|
  {
    hide Carries, Deliver, Events.ValidId;
    if evs != [] {
      assert evs[|evs| - 1] in evs && forall ev | ev in evs[..|evs| - 1] :: ev in evs;
      DeliverAllSendable(v, evs[..|evs| - 1], now, bound);
      DeliverSendable(DeliverAll(v, evs[..|evs| - 1], now), evs[|evs| - 1], now, bound);
    }
  }

  function Message(fields: seq<string>): string { Text.Join(fields, '|') }

  function Field(f: seq<string>, i: nat): string { if i < |f| then f[i] else "" }

  /** Events put in the last field of a message come out as they went in. */
  lemma PayloadSurvives(head: seq<string>, evs: seq<Event>, bound: nat)
    requires (forall x | x in head :: '|' !in x) && forall ev | ev in evs :: Carries(ev, bound)
    ensures
      var f := Split(Message(head + [Events.SerializeAll(evs)]), '|');
      f == head + [Events.SerializeAll(evs)] && Events.DeserializeAll(Field(f, |head|)) == evs
  {
    hide Events.SerializeAll, Events.DeserializeAll, Events.ValidId, Events.WireSafe, Split, Text.Join;
    Events.SerializeAllFree(evs);
    Events.EventsRoundTrip(evs);
    SplitJoin(head + [Events.SerializeAll(evs)], '|');
  }

  lemma ThreeFields(a: string, b: string, c: string)
    ensures a + "|" + b + "|" + c == Message([a, b] + [c])
  {
    JoinAppend([a], b, '|');
    assert [a] + [b] == [a, b];
    JoinAppend([a, b], c, '|');
  }

  lemma FourFields(a: string, b: string, c: string, d: string)
    ensures a + "|" + b + "|" + c + "|" + d == Message([a, b, c] + [d])
  {
    ThreeFields(a, b, c);
    assert [a, b] + [c] == [a, b, c];
    JoinAppend([a, b, c], d, '|');
  }

  /** A pushed full state arrives whole, and is delivered as it is. */
  lemma PushArrives(hash: string -> nat, u: View, n: NodeState, verb: string, now: nat)
    requires Sendable(u, TWO64) && '|' !in verb
    ensures
      var f := Split(Message([verb, u.self.nodeId] + [Events.SerializeAll(FullState(u))]), '|');
      && f[0] == verb && Events.DeserializeAll(Field(f, 2)) == FullState(u)
      && ReceiveAll(hash, n, FullState(u), now).swim.view == DeliverAll(n.swim.view, FullState(u), now)
  {
    hide ReceiveAll, FullState, DeliverAll, Split, Events.SerializeAll, Events.DeserializeAll, Message, Events.ValidId;
    FullStateCarries(u, TWO64);
    ValidIdPlain(u.self.nodeId);
    PayloadSurvives([verb, u.self.nodeId], FullState(u), TWO64);
    ReceiveAllDelivers(hash, n, FullState(u), now);
  }

  lemma SendableMore(v: View, bound: nat, more: nat)
    requires Sendable(v, bound) && bound <= more
    ensures Sendable(v, more)
  {
    hide Events.ValidId, Addressable;
  }

  lemma PushKeepsSendable(a: View, b: View, now: nat)
    requires Sendable(a, TWO64 - 1) && Sendable(b, TWO64 - 1)
    ensures Sendable(Answered(a, b, now), TWO64)
  {
    hide Sendable, Carries, FullState, DeliverAll;
    FullStateCarries(a, TWO64 - 1);
    DeliverAllSendable(b, FullState(a), now, TWO64 - 1);
  }

  // -------------------------------------------------------------------------
  // Joining
  // -------------------------------------------------------------------------

  predicate Listed(st: MemberState) { st.Alive? || st.Suspect? }

  function AliveEvent(e: Entry): Event {
    Events.Event(Events.Alive, e.info.nodeId, e.info.host, e.info.port, e.incarnation)
  }

  function AliveEvents(es: seq<Entry>): seq<Event> {
    seq(|es|, i requires 0 <= i < |es| => AliveEvent(es[i]))
  }

  /** The join handler's answer: the live membership, or to a departed joiner its own departure and nothing else. */
  function JoinAnswer(v: View, id: string): seq<Event> {
    if id != v.self.nodeId && Gone(v, id) then [ShortEvent(Events.Leave, id, 0)]
    else LiveAnswer(v)
  }

  function LiveAnswer(v: View): seq<Event> {
    [AliveSelf(v, v.incarnation)] + AliveEvents(Selected(v, MemberIds(v), Listed))
  }

  function JoinClaim(f: seq<string>): Event {
    Events.Event(Events.Join, Field(f, 1), Field(f, 2), Events.ReadPort(Field(f, 3)),
                 Events.ReadIncarnation(Field(f, 4)))
  }

  /** The seed after a SWIM_JOIN. */
  function Seeded(hash: string -> nat, n: NodeState, f: seq<string>, now: nat): NodeState {
    if !Events.ValidId(Field(f, 1)) then n
    else NodeApply(hash, ReceiveAll(hash, n, Events.DeserializeAll(Field(f, 5)), now), OpJoin(JoinClaim(f)))
  }

  /** A list of peers leaves out no wanted member. */
  lemma {:induction false} SelectedAll(v: View, ids: seq<string>, want: MemberState -> bool, id: string)
    requires (forall x | x in ids :: x in v.members) && id in ids && want(v.members[id].state)
    ensures v.members[id] in Selected(v, ids, want)
    decreases |ids|
  {
    if id != ids[|ids| - 1] { SelectedAll(v, ids[..|ids| - 1], want, id); }
  }

  /** A list of peers names each member at most once. */
  lemma {:induction false} SelectedOnce(v: View, ids: seq<string>, want: MemberState -> bool)
    requires forall id | id in ids :: id in v.members && v.members[id].info.nodeId == id
    requires forall i, j | 0 <= i < j < |ids| :: ids[i] != ids[j]
    ensures
      var s := Selected(v, ids, want);
      && (forall i, j | 0 <= i < j < |s| :: s[i].info.nodeId != s[j].info.nodeId)
      && (forall e | e in s :: want(e.state) && e.info.nodeId in ids && e == v.members[e.info.nodeId])
    decreases |ids|
  {
    if ids != [] {
      var init, last := ids[..|ids| - 1], ids[|ids| - 1];
      assert last in ids && last !in init && forall id | id in init :: id in ids;
      SelectedOnce(v, init, want);
      var s := Selected(v, init, want);
      assert forall i | 0 <= i < |s| :: s[i] in s && s[i].info.nodeId != last;
    }
  }

  ghost predicate Live(v: View, id: string) {
    id in v.members && (v.members[id].state.Alive? || v.members[id].state.Suspect?)
  }

  lemma LiveAnswerAt(v: View, i: nat)
    requires WellFormed(v) && i < |LiveAnswer(v)|
    ensures
      var ev := LiveAnswer(v)[i];
      if i == 0 then ev == AliveSelf(v, v.incarnation)
      else Live(v, ev.nodeId) && ev == AliveEvent(v.members[ev.nodeId])
  {
    hide Selected, MemberIds;
    var es := Selected(v, MemberIds(v), Listed);
    SelectedOnce(v, MemberIds(v), Listed);
    if i > 0 { assert LiveAnswer(v)[i] == AliveEvent(es[i - 1]) && es[i - 1] in es; }
  }

  lemma LiveAnswerDistinct(v: View)
    requires WellFormed(v)
    ensures OnePerNode(LiveAnswer(v))
  {
    hide Selected, MemberIds;
    var es := Selected(v, MemberIds(v), Listed);
    SelectedOnce(v, MemberIds(v), Listed);
    forall i, j | 0 <= i < j < |LiveAnswer(v)| ensures LiveAnswer(v)[i].nodeId != LiveAnswer(v)[j].nodeId {
      LiveAnswerAt(v, i);
      LiveAnswerAt(v, j);
      if i > 0 { assert es[i - 1].info.nodeId != es[j - 1].info.nodeId; }
    }
  }

  lemma LiveAnswerHas(v: View, id: string)
    requires WellFormed(v) && Live(v, id)
    ensures AliveEvent(v.members[id]) in LiveAnswer(v)
  {
    hide Selected, MemberIds, AliveEvent;
    var es := Selected(v, MemberIds(v), Listed);
    SelectedAll(v, MemberIds(v), Listed, id);
    var k :| 0 <= k < |es| && es[k] == v.members[id];
    assert AliveEvents(es)[k] == AliveEvent(es[k]);
    assert LiveAnswer(v)[k + 1] == AliveEvent(es[k]);
  }

  /** What a newcomer, knowing nobody, holds about another node once the seed has answered. */
  lemma NewcomerLearns(self: NodeInfo, v: View, now: nat, id: string)
    requires WellFormed(v) && id != self.nodeId
    ensures Lookup(DeliverAll(View(self, 0, false, map[]), LiveAnswer(v), now), id) ==
            if id == v.self.nodeId then Some(Entry(v.self, Alive, v.incarnation, 0))
            else if Live(v, id) then Some(Entry(v.members[id].info, Alive, v.members[id].incarnation, 0))
            else None
  {
    hide DeliverAll, LiveAnswer, OnePerNode, Live;
    var j := View(self, 0, false, map[]);
    LiveAnswerDistinct(v);
    if id == v.self.nodeId {
      SelfAnswered(v);
      DeliverAllOne(j, LiveAnswer(v), now, AliveSelf(v, v.incarnation));
    } else if Live(v, id) {
      LiveMember(v, id);
      LiveAnswerHas(v, id);
      DeliverAllOne(j, LiveAnswer(v), now, AliveEvent(v.members[id]));
    } else {
      AnswerSilent(v, id);
      DeliverAllSilent(j, LiveAnswer(v), now, id);
    }
  }

  lemma SelfAnswered(v: View)
    ensures AliveSelf(v, v.incarnation) in LiveAnswer(v)
  {
    hide Selected, MemberIds;
    assert LiveAnswer(v)[0] == AliveSelf(v, v.incarnation);
  }

  lemma LiveMember(v: View, id: string)
    requires WellFormed(v) && Live(v, id)
    ensures id in v.members && v.members[id].info.nodeId == id
  {
  }

  lemma AnswerSilent(v: View, id: string)
    requires WellFormed(v) && id != v.self.nodeId && !Live(v, id)
    ensures forall ev | ev in LiveAnswer(v) :: ev.nodeId != id
  {
    hide LiveAnswer, Live;
    forall ev | ev in LiveAnswer(v) ensures ev.nodeId != id {
      var i :| 0 <= i < |LiveAnswer(v)| && LiveAnswer(v)[i] == ev;
      LiveAnswerAt(v, i);
    }
  }

  lemma {:induction false} NewsOfLifeKeepsSelf(j: View, evs: seq<Event>, now: nat)
    requires forall ev | ev in evs :: ev.kind.Alive?
    ensures
      var w := DeliverAll(j, evs, now);
      w.self == j.self && w.left == j.left && w.incarnation == j.incarnation
    decreases |evs|
  {
    hide Deliver;
    if evs != [] {
      assert evs[|evs| - 1] in evs && forall ev | ev in evs[..|evs| - 1] :: ev in evs;
      NewsOfLifeKeepsSelf(j, evs[..|evs| - 1], now);
      DeliverElsewhere(DeliverAll(j, evs[..|evs| - 1], now), evs[|evs| - 1], now);
    }
  }

  /** A joiner retires on the seed's answer exactly when the seed holds it departed (or it already had). */
  lemma JoinVerdict(j: View, v: View, now: nat)
    requires WellFormed(v) && j.self.nodeId != v.self.nodeId
    ensures DeliverAll(j, JoinAnswer(v, j.self.nodeId), now).left <==> j.left || Gone(v, j.self.nodeId)
  {
    hide LiveAnswer;
    var id := j.self.nodeId;
    if Gone(v, id) {
      var ev := ShortEvent(Events.Leave, id, 0);
      assert JoinAnswer(v, id)[..0] == [];
      assert DeliverAll(j, [], now) == j;
    } else {
      forall ev | ev in LiveAnswer(v) ensures ev.kind.Alive? {
        var i :| 0 <= i < |LiveAnswer(v)| && LiveAnswer(v)[i] == ev;
        LiveAnswerAt(v, i);
      }
      NewsOfLifeKeepsSelf(j, LiveAnswer(v), now);
    }
  }

  /**
   The seed's side: a departed joiner changes nothing at all and is passed on to
   nobody; any other is alive here afterwards, strictly above whatever was held.
   */
  lemma JoinOutcome(s: SwimState, claim: Event)
    requires Events.ValidId(claim.nodeId) && claim.nodeId != s.view.self.nodeId
    ensures
      var t, id := HandleJoin(s, claim).state, claim.nodeId;
      && (Gone(t.view, id) <==> Gone(s.view, id))
      && (Gone(s.view, id) ==> t == s)
      && (!Gone(s.view, id) ==>
            && id in t.view.members && t.view.members[id].state.Alive?
            && t.view.members[id].incarnation >= claim.incarnation
            && (id in s.view.members ==> t.view.members[id].incarnation > s.view.members[id].incarnation)
            && Queued(t, claim.(kind := Events.Alive, incarnation := t.view.members[id].incarnation)))
  {
    hide Events.ValidId, Queued;
    var r := DirectJoin(s, claim);
    if !Gone(s.view, claim.nodeId) {
      var ev := claim.(kind := Events.Alive, incarnation := r.state.view.members[claim.nodeId].incarnation);
      QueuedAfter(r.state, ev, ev);
    }
  }

  // -------------------------------------------------------------------------
  // A join that leaves an overhang
  // -------------------------------------------------------------------------

  /** The seed still knows the joiner, at its incarnation or above, and has not seen it depart. */
  predicate Remembered(v: View, j: View) {
    var id := j.self.nodeId;
    id in v.members && !v.members[id].state.Left? && v.members[id].incarnation >= j.incarnation
  }

  /** A direct join leaves the seed holding the joiner above its own incarnation exactly when it was remembered. */
  lemma JoinOverhangsIff(s: SwimState, j: View)
    requires Events.ValidId(j.self.nodeId) && !j.left && j.self.nodeId != s.view.self.nodeId
    ensures Overhangs(HandleJoin(s, ClaimOf(j)).state.view, j) <==> Remembered(s.view, j)
  {
    hide Events.ValidId;
  }

  lemma JoinWellFormed(s: SwimState, claim: Event)
    requires WellFormed(s.view)
    ensures WellFormed(HandleJoin(s, claim).state.view) && HandleJoin(s, claim).state.view.self == s.view.self
  {
    hide Events.ValidId;
  }

  lemma AnswerKeepsSelf(j: View, v: View, now: nat)
    requires WellFormed(v) && j.self.nodeId != v.self.nodeId && !Gone(v, j.self.nodeId)
    ensures
      var w := DeliverAll(j, JoinAnswer(v, j.self.nodeId), now);
      w.self == j.self && w.left == j.left && w.incarnation == j.incarnation
  {
    hide LiveAnswer;
    forall ev | ev in LiveAnswer(v) ensures ev.kind.Alive? {
      var i :| 0 <= i < |LiveAnswer(v)| && LiveAnswer(v)[i] == ev;
      LiveAnswerAt(v, i);
    }
    NewsOfLifeKeepsSelf(j, LiveAnswer(v), now);
  }

  /**
   A node that comes back under an incarnation its seed has already seen, as a
   restarted process does, is accepted, and from then on the two never agree, however
   often they sync.
   */
  lemma RememberedJoinerNeverAgrees(s: SwimState, j: View, now: nat, rs: seq<Round>)
    requires Pair(s.view, j) && Events.ValidId(j.self.nodeId) && !j.left && Remembered(s.view, j)
    ensures
      var v := HandleJoin(s, ClaimOf(j)).state.view;
      var w := DeliverAll(j, JoinAnswer(v, j.self.nodeId), now);
      var (x, y) := ExchangedAll(v, w, rs);
      !w.left && Abs(x) != Abs(y)
  {
    hide DeliverAll, JoinAnswer, Abs, ExchangedAll, HandleJoin, Events.ValidId;
    var v := HandleJoin(s, ClaimOf(j)).state.view;
    var evs := JoinAnswer(v, j.self.nodeId);
    JoinOverhangsIff(s, j);
    JoinWellFormed(s, ClaimOf(j));
    AnswerKeepsSelf(j, v, now);
    DeliverAllWellFormed(j, evs, now);
    OverhangForever(v, DeliverAll(j, evs, now), rs);
  }

  /** The six fields of a SWIM_JOIN, its events left empty. */
  function JoinFields(v: View): seq<string> {
    ["SWIM_JOIN", v.self.nodeId, v.self.host, Dec(v.self.port), Dec(v.incarnation), ""]
  }

  function ClaimOf(v: View): Event {
    Events.Event(Events.Join, v.self.nodeId, v.self.host, v.self.port, v.incarnation)
  }

  lemma JoinFieldsText(v: View)
    ensures "SWIM_JOIN" + "|" + v.self.nodeId + "|" + v.self.host + "|" + Dec(v.self.port) + "|" +
              Dec(v.incarnation) + "|"
            == Message(JoinFields(v))
  {
    var f := JoinFields(v);
    FourFields(f[0], f[1], f[2], f[3]);
    assert f[..3] + [f[3]] == f[..4] == [f[0], f[1], f[2]] + [f[3]];
    JoinAppend(f[..4], f[4], '|');
    assert f[..4] + [f[4]] == f[..5];
    JoinAppend(f[..5], f[5], '|');
    assert f[..5] + [f[5]] == f;
  }

  lemma NoEvents()
    ensures Events.DeserializeAll("") == []
  {
    assert Events.SerializeAll([]) == "";
    Events.EventsRoundTrip([]);
  }

  /** A join message is read back as the claim it was made from. */
  lemma JoinArrives(v: View)
    requires Sendable(v, TWO64)
    ensures
      var f := Split(Message(JoinFields(v)), '|');
      f == JoinFields(v) && JoinClaim(f) == ClaimOf(v) && Events.DeserializeAll(Field(f, 5)) == []
  {
    hide Split, Text.Join, Events.DeserializeAll, Events.ValidId, Dec, Stoi, Stoull;
    ValidIdPlain(v.self.nodeId);
    SplitJoin(JoinFields(v), '|');
    NoEvents();
    StoiDec(v.self.port);
    StoullDec(v.incarnation);
  }

  lemma LiveAnswerCarries(v: View)
    requires Sendable(v, TWO64)
    ensures forall ev | ev in LiveAnswer(v) :: Carries(ev, TWO64)
  {
    hide LiveAnswer, Events.ValidId;
    forall ev | ev in LiveAnswer(v) ensures Carries(ev, TWO64) {
      var i :| 0 <= i < |LiveAnswer(v)| && LiveAnswer(v)[i] == ev;
      LiveAnswerAt(v, i);
      ValidIdPlain(ev.nodeId);
    }
  }

  lemma JoinAnswerCarries(v: View, id: string)
    requires Sendable(v, TWO64) && Events.ValidId(id)
    ensures forall ev | ev in JoinAnswer(v, id) :: Carries(ev, TWO64)
  {
    hide LiveAnswer, Events.ValidId, Sendable;
    LiveAnswerCarries(v);
    ValidIdPlain(id);
  }

  lemma JoinSendable(s: SwimState, claim: Event)
    requires Sendable(s.view, TWO64 - 1) && Carries(claim, TWO64 - 1)
    ensures Sendable(HandleJoin(s, claim).state.view, TWO64)
  {
    hide Events.ValidId;
  }

  lemma AnswerArrives(hash: string -> nat, v: View, id: string, n: NodeState, now: nat)
    requires Sendable(v, TWO64) && Events.ValidId(id)
    ensures
      var f := Split(Message(["SWIM_ACK", v.self.nodeId, id] + [Events.SerializeAll(JoinAnswer(v, id))]), '|');
      && f[0] == "SWIM_ACK" && Events.DeserializeAll(Field(f, 3)) == JoinAnswer(v, id)
      && ReceiveAll(hash, n, JoinAnswer(v, id), now).swim.view == DeliverAll(n.swim.view, JoinAnswer(v, id), now)
  {
    hide ReceiveAll, JoinAnswer, DeliverAll, Split, Events.SerializeAll, Events.DeserializeAll, Message, Events.ValidId;
    JoinAnswerCarries(v, id);
    ValidIdPlain(v.self.nodeId);
    ValidIdPlain(id);
    PayloadSurvives(["SWIM_ACK", v.self.nodeId, id], JoinAnswer(v, id), TWO64);
    ReceiveAllDelivers(hash, n, JoinAnswer(v, id), now);
  }

  lemma ClaimCarries(v: View)
    requires Sendable(v, TWO64 - 1)
    ensures Carries(ClaimOf(v), TWO64 - 1) && Events.ValidId(v.self.nodeId)
  {
    hide Events.ValidId;
    ValidIdPlain(v.self.nodeId);
  }

  lemma SendableWellFormed(v: View, bound: nat)
    requires Sendable(v, bound)
    ensures WellFormed(v)
  {
  }

  lemma JoinFieldsAt(v: View)
    ensures Field(JoinFields(v), 1) == v.self.nodeId
  {
  }

  lemma SeededBy(hash: string -> nat, n: NodeState, v: View, now: nat)
    requires Sendable(v, TWO64)
    ensures Seeded(hash, n, JoinFields(v), now) == NodeApply(hash, n, OpJoin(ClaimOf(v)))
    ensures NodeApply(hash, n, OpJoin(ClaimOf(v))).swim == HandleJoin(n.swim, ClaimOf(v)).state
  {
    hide Split, Events.DeserializeAll, Events.ValidId, HandleJoin, Message;
    JoinArrives(v);
    ReceiveNone(hash, n, [], now);
  }

  // -------------------------------------------------------------------------
  // Conversations over a line that may fail
  // -------------------------------------------------------------------------

  /** Up, not reaching the other side, or losing its reply. */
  datatype Line = Up | Down | ReplyLost

  /** The events the other side reads out of a pushed full state. */
  function Pushed(verb: string, v: View): seq<Event> {
    Events.DeserializeAll(Field(Split(Message([verb, v.self.nodeId] + [Events.SerializeAll(FullState(v))]), '|'), 2))
  }

  /** A join message as the seed splits it, and the id the seed takes the joiner to have. */
  function JoinSplit(v: View): seq<string> { Split(Message(JoinFields(v)), '|') }

  function JoinerAs(v: View): string { Field(JoinSplit(v), 1) }

  function ReplyText(v: View, id: string): string {
    Message(["SWIM_ACK", v.self.nodeId, id] + [Events.SerializeAll(JoinAnswer(v, id))])
  }

  /** The events the joiner reads out of the seed's reply. */
  function Replied(v: View, id: string): seq<Event> {
    Events.DeserializeAll(Field(Split(ReplyText(v, id), '|'), 3))
  }

  lemma FirstField(verb: string, rest: seq<string>)
    requires '|' !in verb && rest != []
    ensures Message([verb] + rest) != "" && Split(Message([verb] + rest), '|')[0] == verb
  {
    var f := [verb] + rest;
    assert f[1..] == rest;
    assert Message(f) == verb + ['|'] + Text.Join(rest, '|');
    CutAt(verb, '|', Text.Join(rest, '|'));
  }

  lemma SyncFields(verb: string, v: View)
    ensures [verb] + ([v.self.nodeId] + [Events.SerializeAll(FullState(v))]) ==
            [verb, v.self.nodeId] + [Events.SerializeAll(FullState(v))]
  {
  }

  lemma ReplyFirst(v: View, id: string)
    ensures ReplyText(v, id) != "" && Split(ReplyText(v, id), '|')[0] == "SWIM_ACK"
  {
    hide Split, Message, Events.SerializeAll, JoinAnswer;
    var text := Events.SerializeAll(JoinAnswer(v, id));
    FirstField("SWIM_ACK", [v.self.nodeId, id, text]);
    assert ["SWIM_ACK"] + [v.self.nodeId, id, text] == ["SWIM_ACK", v.self.nodeId, id] + [text];
  }

  lemma ReplyNotEmpty(v: View, id: string)
    ensures ReplyText(v, id) != ""
  {
    ReplyFirst(v, id);
  }

  /** Over a line that is up, sendable views end as the push-pull exchange leaves them, any refutation queued. */
  lemma SyncViews(hashA: string -> nat, hashB: string -> nat, a: NodeState, b: NodeState, now: nat)
    requires Sendable(a.swim.view, TWO64 - 1) && Sendable(b.swim.view, TWO64 - 1)
    ensures
      var b1 := ReceiveAll(hashB, b, Pushed("SWIM_SYNC", a.swim.view), now);
      var a1 := ReceiveAll(hashA, a, Pushed("SWIM_SYNC_ACK", b1.swim.view), now);
      && b1.swim.view == Answered(a.swim.view, b.swim.view, now)
      && a1.swim.view == Completed(a.swim.view, b.swim.view, now)
      && (a1.swim.view.incarnation > a.swim.view.incarnation ==>
            Queued(a1.swim, AliveSelf(a1.swim.view, a1.swim.view.incarnation)))
  {
    hide Queued, ReceiveAll, FullState, DeliverAll, Split, Events.SerializeAll, Events.DeserializeAll, Message,
         Sendable;
    SendableMore(a.swim.view, TWO64 - 1, TWO64);
    PushArrives(hashB, a.swim.view, b, "SWIM_SYNC", now);
    var b1 := ReceiveAll(hashB, b, Pushed("SWIM_SYNC", a.swim.view), now);
    PushKeepsSendable(a.swim.view, b.swim.view, now);
    PushArrives(hashA, b1.swim.view, a, "SWIM_SYNC_ACK", now);
    RefutationQueued(hashA, a, FullState(b1.swim.view), now);
  }

  /**
   Over a line that is up, a sendable joiner is taken in as its own claim and reads
   the seed's answer as it was sent.
   */
  lemma JoinViews(hashA: string -> nat, hashB: string -> nat, a: NodeState, b: NodeState, now: nat)
    requires Sendable(a.swim.view, TWO64 - 1) && Sendable(b.swim.view, TWO64 - 1)
    requires a.swim.view.self.nodeId != b.swim.view.self.nodeId
    ensures
      var id := a.swim.view.self.nodeId;
      var b1 := Seeded(hashB, b, JoinSplit(a.swim.view), now);
      var a1 := ReceiveAll(hashA, a, Replied(b1.swim.view, JoinerAs(a.swim.view)), now);
      && JoinerAs(a.swim.view) == id && b1 == NodeApply(hashB, b, OpJoin(ClaimOf(a.swim.view)))
      && a1.swim.view == DeliverAll(a.swim.view, JoinAnswer(b1.swim.view, id), now)
      && (a1.swim.view.left <==> a.swim.view.left || Gone(b.swim.view, id))
  {
    hide ReceiveAll, NodeApply, JoinAnswer, DeliverAll, Split, Events.SerializeAll, Events.DeserializeAll, Message,
         Sendable, Carries, Gone, JoinClaim, JoinFields, Events.ValidId, HandleJoin, Seeded;
    var id := a.swim.view.self.nodeId;
    ClaimCarries(a.swim.view);
    SendableMore(a.swim.view, TWO64 - 1, TWO64);
    JoinArrives(a.swim.view);
    JoinFieldsAt(a.swim.view);
    SeededBy(hashB, b, a.swim.view, now);
    var b1 := Seeded(hashB, b, JoinSplit(a.swim.view), now);
    JoinSendable(b.swim, ClaimOf(a.swim.view));
    JoinOutcome(b.swim, ClaimOf(a.swim.view));
    SeedKeepsId(b.swim, ClaimOf(a.swim.view));
    AnswerArrives(hashA, b1.swim.view, id, a, now);
    SendableWellFormed(b1.swim.view, TWO64);
    JoinVerdict(a.swim.view, b1.swim.view, now);
  }

  lemma SeedKeepsId(s: SwimState, claim: Event)
    ensures HandleJoin(s, claim).state.view.self == s.view.self
  {
  }

  // -------------------------------------------------------------------------
  // The thread
  // -------------------------------------------------------------------------

  /** No two of these threads share a member table or a ring. */
  ghost predicate Apart(seeds: seq<GossipThread>) {
    forall i, j | 0 <= i < j < |seeds| :: seeds[i].swim != seeds[j].swim && seeds[i].router != seeds[j].router
  }

  /** A seed's address, "host:port"; anything without a readable port is skipped. */
  function SeedAddress(seed: string): Option<(string, nat)> {
    var parts := Split(seed, ':');
    if |parts| < 2 then None
    else match Stoi(parts[1]) case None => None case Some(port) => Some((parts[0], port % 65536))
  }

  lemma SeedAddressInverts(host: string, port: nat)
    requires ':' !in host && port < 65536
    ensures SeedAddress(host + ":" + Dec(port)) == Some((host, port))
  {
    hide Split, Stoi, Dec;
    assert forall c | c in Dec(port) :: IsDigit(c);
    assert host + ":" + Dec(port) == Text.Join([host, Dec(port)], ':') by { JoinAppend([host], Dec(port), ':'); }
    SplitJoin([host, Dec(port)], ':');
    StoiDec(port);
  }

  class GossipThread {
    const swim: Swim
    const router: Router

    function Node(): NodeState
      reads swim, router
    {
      NodeState(swim.State(), router.State())
    }

    constructor (hash: string -> nat, info: NodeInfo, vnodes: nat)
      ensures fresh(swim) && fresh(router) && router.hash == hash
      ensures Node() == Booted(hash, info, vnodes) && InStep(swim.State().view, router.State())
    {
      swim := new Swim(info);
      router := new Router(hash, vnodes);
      new;
      router.AddPhysicalNode(info);
      BootedInStep(hash, info, vnodes);
    }

    /** The ring callback, once per notice and in order. */
    method Fire(fired: seq<Notice>)
      modifies router
      ensures router.State() == OnNotices(router.hash, old(router.State()), fired)
    {
      for i := 0 to |fired|
        invariant router.State() == OnNotices(router.hash, old(router.State()), fired[..i])
      {
        assert fired[..i + 1][..i] == fired[..i];
        if fired[i].state.Alive? {
          router.AddPhysicalNode(fired[i].info);
        } else if fired[i].state.Left? {
          router.RemovePhysicalNode(fired[i].info.nodeId);
        }
      }
      assert fired[..|fired|] == fired;
    }

    method ApplyOne(ev: Event, now: nat)
      modifies swim, router
      ensures Node() == NodeApply(router.hash, old(Node()), OpReceive(ev, now))
    {
      hide Events.ValidId;
      if !Events.ValidId(ev.nodeId) {
        assert OnNotices(router.hash, router.State(), []) == router.State();
        return;
      }
      var changed, fired := swim.ApplyRelayed(ev, now);
      Fire(fired);
      if changed { swim.EnqueueEvent(ev); }
    }

    /** `applyIncomingEvents`: invalid ids dropped, accepted events passed on. */
    method ApplyIncomingEvents(text: string, now: nat)
      modifies swim, router
      ensures Node() == ReceiveAll(router.hash, old(Node()), Events.DeserializeAll(text), now)
    {
      hide ReceiveAll, NodeApply, Events.DeserializeAll;
      var evs := Events.DeserializeEvents(text);
      ReceiveNone(router.hash, Node(), evs, now);
      for i := 0 to |evs|
        invariant Node() == ReceiveAll(router.hash, old(Node()), evs[..i], now)
      {
        ReceiveNext(router.hash, old(Node()), evs, i, now);
        ApplyOne(evs[i], now);
      }
      assert evs[..|evs|] == evs;
    }

    /** The SWIM_SYNC branch of `handleMessage`. */
    method AnswerSync(payload: string, now: nat) returns (reply: string)
      modifies swim, router
      ensures Node() == ReceiveAll(router.hash, old(Node()), Events.DeserializeAll(Field(Split(payload, '|'), 2)), now)
      ensures reply == Message(["SWIM_SYNC_ACK", swim.self.nodeId] +
                [Events.SerializeAll(FullState(swim.State().view))])
    {
      hide ReceiveAll, FullState, Split, Events.SerializeAll, Events.DeserializeAll, Message;
      var f := SplitAll(payload, '|');
      ApplyIncomingEvents(Field(f, 2), now);
      var all := swim.GetFullState();
      var text := Events.SerializeEvents(all);
      ThreeFields("SWIM_SYNC_ACK", swim.self.nodeId, text);
      reply := "SWIM_SYNC_ACK" + "|" + swim.self.nodeId + "|" + text;
    }

    /**
     `performSync` over a line that may be down or lose the reply.  When it is up
     and the text form can carry both views, they end as the push-pull exchange
     leaves them.
     */
    method PerformSync(peer: GossipThread, line: Line, now: nat)
      requires swim != peer.swim && router != peer.router
      modifies swim, router, peer.swim, peer.router
      ensures peer.Node() ==
              if line.Down? then old(peer.Node())
              else ReceiveAll(peer.router.hash, old(peer.Node()), Pushed("SWIM_SYNC", old(swim.State()).view), now)
      ensures Node() ==
              if line.Up?
              then ReceiveAll(router.hash, old(Node()), Pushed("SWIM_SYNC_ACK", peer.swim.State().view), now)
              else old(Node())
      ensures line.Up? && Sendable(old(swim.State()).view, TWO64 - 1) &&
                Sendable(old(peer.swim.State()).view, TWO64 - 1) ==>
                && peer.swim.State().view == Answered(old(swim.State()).view, old(peer.swim.State()).view, now)
                && swim.State().view == Completed(old(swim.State()).view, old(peer.swim.State()).view, now)
                && (swim.incarnation > old(swim.incarnation) ==>
                      Queued(swim.State(), AliveSelf(swim.State().view, swim.incarnation)))
    {
      hide Queued, ReceiveAll, FullState, DeliverAll, Split, Events.SerializeAll, Events.DeserializeAll, Message,
           Sendable, Carries;
      ghost var a, b := Node(), peer.Node();
      var all := swim.GetFullState();
      var text := Events.SerializeEvents(all);
      if line.Down? { return; }
      ThreeFields("SWIM_SYNC", swim.self.nodeId, text);
      var resp := peer.AnswerSync("SWIM_SYNC" + "|" + swim.self.nodeId + "|" + text, now);
      if line.ReplyLost? { return; }
      FirstField("SWIM_SYNC_ACK", [peer.swim.self.nodeId] + [Events.SerializeAll(FullState(peer.swim.State().view))]);
      SyncFields("SWIM_SYNC_ACK", peer.swim.State().view);
      var f := SplitAll(resp, '|');
      if f[0] == "SWIM_SYNC_ACK" { ApplyIncomingEvents(Field(f, 2), now); }
      if Sendable(a.swim.view, TWO64 - 1) && Sendable(b.swim.view, TWO64 - 1) {
        SyncViews(router.hash, peer.router.hash, a, b, now);
      }
    }

    /** A direct join taken in and, unless refused, passed on as news of life. */
    method TakeJoin(claim: Event) returns (refused: bool)
      requires Events.ValidId(claim.nodeId)
      modifies swim, router
      ensures Node() == NodeApply(router.hash, old(Node()), OpJoin(claim))
      ensures refused == (claim.nodeId != swim.self.nodeId && Gone(swim.State().view, claim.nodeId))
    {
      hide Events.ValidId, OnNotices;
      var eff, fired := swim.ApplyDirectJoin(claim);
      Fire(fired);
      if eff.None? { return true; }
      swim.EnqueueEvent(claim.(kind := Events.Alive, incarnation := eff.value));
      return false;
    }

    /** This node and its live members, all as news of life. */
    method LiveList() returns (list: seq<Event>)
      ensures list == LiveAnswer(swim.State().view)
    {
      hide Selected, MemberIds;
      var live := swim.PeersIn(Listed);
      list := [Events.Event(Events.Alive, swim.self.nodeId, swim.self.host, swim.self.port, swim.incarnation)];
      var i := 0;
      while i < |live|
        invariant 0 <= i <= |live|
        invariant list == [AliveSelf(swim.State().view, swim.incarnation)] + AliveEvents(live[..i])
      {
        assert AliveEvents(live[..i + 1]) == AliveEvents(live[..i]) + [AliveEvent(live[i])];
        list := list + [AliveEvent(live[i])];
        i := i + 1;
      }
      assert live[..i] == live;
    }

    /** The SWIM_JOIN branch of `handleMessage`; an invalid id gets no answer. */
    method AnswerJoin(payload: string, now: nat) returns (reply: string)
      modifies swim, router
      ensures
        var f := Split(payload, '|');
        && Node() == Seeded(router.hash, old(Node()), f, now)
        && reply == if !Events.ValidId(Field(f, 1)) then ""
                    else Message(["SWIM_ACK", swim.self.nodeId, Field(f, 1)] +
                                 [Events.SerializeAll(JoinAnswer(swim.State().view, Field(f, 1)))])
    {
      hide ReceiveAll, NodeApply, Split, Events.SerializeAll, Events.DeserializeAll, Message, Events.ValidId,
           LiveAnswer, Gone;
      var f := SplitAll(payload, '|');
      var id := Field(f, 1);
      if !Events.ValidId(id) { return ""; }
      ApplyIncomingEvents(Field(f, 5), now);
      var refused := TakeJoin(JoinClaim(f));
      var list := [ShortEvent(Events.Leave, id, 0)];
      if !refused { list := LiveList(); }
      var text := Events.SerializeEvents(list);
      FourFields("SWIM_ACK", swim.self.nodeId, id, text);
      reply := "SWIM_ACK" + "|" + swim.self.nodeId + "|" + id + "|" + text;
    }

    /**
     One step of `joinViaSeeds`: a join sent to a seed over a line that may be down
     or lose the reply.  When the reply comes and the text form can carry both views,
     the joiner ends retired exactly if it was, or the seed holds it departed.
     */
    method JoinVia(seed: GossipThread, line: Line, now: nat) returns (joined: bool)
      requires swim != seed.swim && router != seed.router
      modifies swim, router, seed.swim, seed.router
      ensures joined == (line.Up? && Events.ValidId(JoinerAs(old(swim.State()).view)))
      ensures seed.Node() ==
              if line.Down? then old(seed.Node())
              else Seeded(seed.router.hash, old(seed.Node()), JoinSplit(old(swim.State()).view), now)
      ensures Node() ==
              if joined
              then ReceiveAll(router.hash, old(Node()),
                              Replied(seed.swim.State().view, JoinerAs(old(swim.State()).view)), now)
              else old(Node())
      ensures joined && swim.self.nodeId != seed.swim.self.nodeId
              && Sendable(old(swim.State()).view, TWO64 - 1) && Sendable(old(seed.swim.State()).view, TWO64 - 1) ==>
                && seed.Node() == NodeApply(seed.router.hash, old(seed.Node()), OpJoin(ClaimOf(old(swim.State()).view)))
                && swim.State().view ==
                   DeliverAll(old(swim.State()).view, JoinAnswer(seed.swim.State().view, swim.self.nodeId), now)
                && (swim.selfLeft <==> old(swim.selfLeft) || Gone(old(seed.swim.State()).view, swim.self.nodeId))
    {
      hide ReceiveAll, NodeApply, JoinAnswer, DeliverAll, Split, Events.SerializeAll, Events.DeserializeAll, Message,
           Sendable, Carries, Gone, JoinClaim, JoinFields, Events.ValidId, HandleJoin, Seeded;
      if line.Down? { return false; }
      ghost var a, b := Node(), seed.Node();
      JoinFieldsText(a.swim.view);
      var resp := seed.AnswerJoin(
        "SWIM_JOIN" + "|" + swim.self.nodeId + "|" + swim.self.host + "|" + Dec(swim.self.port) + "|" +
        Dec(swim.incarnation) + "|",
        now);
      if line.ReplyLost? || resp == "" {
        ReplyNotEmpty(seed.swim.State().view, JoinerAs(a.swim.view));
        return false;
      }
      ReplyFirst(seed.swim.State().view, JoinerAs(a.swim.view));
      var f := SplitAll(resp, '|');
      joined := f[0] == "SWIM_ACK";
      if joined { ApplyIncomingEvents(Field(f, 3), now); }
      if Sendable(a.swim.view, TWO64 - 1) && Sendable(b.swim.view, TWO64 - 1) &&
          a.swim.view.self.nodeId != b.swim.view.self.nodeId {
        JoinViews(router.hash, seed.router.hash, a, b, now);
      }
    }

    /**
     `joinViaSeeds`: the first seed whose reply comes settles it; until then nothing
     changes here, and the later seeds are not asked.
     */
    method JoinViaSeeds(seeds: seq<GossipThread>, lines: seq<Line>, now: nat) returns (via: Option<nat>)
      requires |lines| == |seeds| && forall s | s in seeds :: s.swim != swim && s.router != router
      modifies swim, router, set s | s in seeds :: s.swim, set s | s in seeds :: s.router
      ensures via.None? ==>
                Node() == old(Node()) &&
                (!Events.ValidId(JoinerAs(old(swim.State()).view)) || forall i | 0 <= i < |lines| :: !lines[i].Up?)
      ensures via.Some? ==>
                && via.value < |seeds| && lines[via.value].Up? && (forall i | 0 <= i < via.value :: !lines[i].Up?)
                && Node() == ReceiveAll(router.hash, old(Node()),
                               Replied(seeds[via.value].swim.State().view, JoinerAs(old(swim.State()).view)), now)
      ensures Apart(seeds) ==> forall i | 0 <= i < |seeds| ::
                seeds[i].Node() ==
                if lines[i].Down? || (via.Some? && i > via.value) then old(seeds[i].Node())
                else Seeded(seeds[i].router.hash, old(seeds[i].Node()), JoinSplit(old(swim.State()).view), now)
    {
      hide ReceiveAll, Replied, JoinerAs, JoinSplit, Seeded, Events.ValidId, NodeApply, JoinAnswer, DeliverAll,
           Gone, Sendable;
      for i := 0 to |seeds|
        invariant Node() == old(Node())
        invariant Events.ValidId(JoinerAs(old(swim.State()).view)) ==> forall k | 0 <= k < i :: !lines[k].Up?
        invariant Apart(seeds) ==> forall k | 0 <= k < |seeds| ::
                    seeds[k].Node() ==
                    if k >= i || lines[k].Down? then old(seeds[k].Node())
                    else Seeded(seeds[k].router.hash, old(seeds[k].Node()), JoinSplit(old(swim.State()).view), now)
      {
        assert seeds[i] in seeds;
        var joined := JoinVia(seeds[i], lines[i], now);
        if joined { return Some(i); }
      }
      return None;
    }
  }
}
