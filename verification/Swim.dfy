/**
 The SWIM state machine as the object the source has: fields updated in place by
 each operation, every operation proved against its function on values.  The
 callbacks an operation fires are returned in order.
 */
module Swims {
  import opened Text
  import opened Nodes
  import opened Membership
  import opened Bits
  import opened Sync
  import Events

  /** One event added at the end of a queue, to ride on as many messages as `n` members call for. */
  predicate Appended(before: seq<Pending>, after: seq<Pending>, ev: Event, n: nat) {
    after == before + [Pending(ev, LimitFor(n))]
  }

  class Swim {
    const self: NodeInfo
    var incarnation: nat
    var selfLeft: bool
    var members: map<string, Entry>
    var pending: seq<Pending>

    function State(): SwimState
      reads this
    {
      SwimState(View(self, incarnation, selfLeft, members), pending)
    }

    constructor (info: NodeInfo)
      ensures self == info && State() == SwimState(View(info, 0, false, map[]), [])
      ensures WellFormed(State().view)
    {
      self, incarnation, selfLeft, members, pending := info, 0, false, map[], [];
    }

    method EnqueueEvent(ev: Event)
      modifies this
      ensures State() == Enqueue(old(State()), ev)
      ensures Appended(old(pending), pending, ev, |members|)
      ensures members == old(members) && incarnation == old(incarnation) && selfLeft == old(selfLeft)
    {
      pending := pending + [Pending(ev, Limit(State().view))];
    }

    /** Events about ourselves. */
    method ApplySelf(ev: Event) returns (changed: bool, fired: seq<Notice>)
      requires ev.nodeId == self.nodeId
      modifies this
      ensures Result(State(), changed, fired) == ApplyEvent(old(State()), ev, 0)
      ensures members == old(members)
      ensures changed <==> (ev.kind.Leave? && !old(selfLeft)) ||
                           ((ev.kind.Suspect? || ev.kind.Dead?) && ev.incarnation >= old(incarnation))
      ensures selfLeft <==> old(selfLeft) || ev.kind.Leave?
      ensures fired == if changed && ev.kind.Leave? then [Notice(self, Left)] else []
      ensures changed && !ev.kind.Leave? ==>
                && incarnation == ev.incarnation + 1
                && Appended(old(pending), pending,
                            Events.Event(Events.Alive, self.nodeId, self.host, self.port, incarnation), |members|)
      ensures !changed || ev.kind.Leave? ==> incarnation == old(incarnation) && pending == old(pending)
    {
      if ev.kind.Leave? {
        if selfLeft { return false, []; }
        selfLeft := true;
        return true, [Notice(self, Left)];
      }
      if ev.kind.Suspect? || ev.kind.Dead? {
        if ev.incarnation < incarnation { return false, []; }
        incarnation := ev.incarnation + 1;
        EnqueueEvent(Events.Event(Events.Alive, self.nodeId, self.host, self.port, incarnation));
        return true, [];
      }
      return false, [];
    }

    /** `applyEvent`: the gated rules for relayed gossip. */
    method ApplyRelayed(ev: Event, now: nat) returns (changed: bool, fired: seq<Notice>)
      modifies this
      ensures Result(State(), changed, fired) == ApplyEvent(old(State()), ev, now)
    {
      if ev.nodeId == self.nodeId {
        changed, fired := ApplySelf(ev);
        return;
      }
      var known := ev.nodeId in members;
      match ev.kind {
        case Join => changed, fired := ApplyAlive(ev, known);
        case Alive => changed, fired := ApplyAlive(ev, known);
        case Suspect => changed, fired := ApplySuspect(ev, known, now);
        case Dead => changed, fired := ApplyDead(ev, known);
        case Leave => changed, fired := ApplyLeave(ev, known);
        case Unknown(_) => changed, fired := false, [];
      }
    }

    method ApplyAlive(ev: Event, known: bool) returns (changed: bool, fired: seq<Notice>)
      requires ev.nodeId != self.nodeId && (ev.kind.Join? || ev.kind.Alive?) && known == (ev.nodeId in members)
      modifies this
      ensures forall now :: Result(State(), changed, fired) == ApplyEvent(old(State()), ev, now)
      ensures incarnation == old(incarnation) && selfLeft == old(selfLeft) && pending == old(pending)
      ensures !known ==>
                && changed && fired == [Notice(NodeInfo(ev.nodeId, ev.host, ev.port), Alive)]
                && members == old(members)[ev.nodeId :=
                     Entry(NodeInfo(ev.nodeId, ev.host, ev.port), Alive, ev.incarnation, 0)]
      ensures known ==>
                var e := old(members)[ev.nodeId];
                var info := if ev.host == "" then e.info else NodeInfo(e.info.nodeId, ev.host, ev.port);
                && (changed <==> !e.state.Left? && ev.incarnation > e.incarnation)
                && (changed ==>
                      && fired == [Notice(info, Alive)]
                      && members == old(members)[ev.nodeId := Entry(info, Alive, ev.incarnation, e.since)])
      ensures !changed ==> members == old(members) && fired == []
    {
      if !known {
        var e := Entry(NodeInfo(ev.nodeId, ev.host, ev.port), Alive, ev.incarnation, 0);
        members := members[ev.nodeId := e];
        return true, [Notice(e.info, Alive)];
      }
      var e := members[ev.nodeId];
      if e.state.Left? { return false, []; }
      if ev.incarnation <= e.incarnation { return false, []; }
      var info := if ev.host != "" then e.info.(host := ev.host, port := ev.port) else e.info;
      e := e.(state := Alive, incarnation := ev.incarnation, info := info);
      members := members[ev.nodeId := e];
      return true, [Notice(e.info, Alive)];
    }

    method ApplySuspect(ev: Event, known: bool, now: nat) returns (changed: bool, fired: seq<Notice>)
      requires ev.nodeId != self.nodeId && ev.kind.Suspect? && known == (ev.nodeId in members)
      modifies this
      ensures Result(State(), changed, fired) == ApplyEvent(old(State()), ev, now)
      ensures incarnation == old(incarnation) && selfLeft == old(selfLeft) && pending == old(pending) && fired == []
      ensures !known ==> !changed
      ensures known ==>
                var e := old(members)[ev.nodeId];
                && (changed <==> (e.state.Alive? && ev.incarnation >= e.incarnation) ||
                                 (e.state.Suspect? && ev.incarnation > e.incarnation))
                && (changed ==> members == old(members)[ev.nodeId := Entry(e.info, Suspect, ev.incarnation, now)])
      ensures !changed ==> members == old(members)
    {
      if !known { return false, []; }
      var e := members[ev.nodeId];
      if ev.incarnation < e.incarnation { return false, []; }
      if e.state.Dead? { return false, []; }
      if e.state.Left? { return false, []; }
      if e.state.Suspect? && ev.incarnation <= e.incarnation { return false, []; }
      members := members[ev.nodeId := e.(state := Suspect, incarnation := ev.incarnation, since := now)];
      return true, [];
    }

    method ApplyDead(ev: Event, known: bool) returns (changed: bool, fired: seq<Notice>)
      requires ev.nodeId != self.nodeId && ev.kind.Dead? && known == (ev.nodeId in members)
      modifies this
      ensures forall now :: Result(State(), changed, fired) == ApplyEvent(old(State()), ev, now)
      ensures incarnation == old(incarnation) && selfLeft == old(selfLeft) && pending == old(pending)
      ensures !known ==>
                && changed && fired == []
                && members == old(members)[ev.nodeId :=
                     Entry(NodeInfo(ev.nodeId, ev.host, ev.port), Dead, ev.incarnation, 0)]
      ensures known ==>
                var e := old(members)[ev.nodeId];
                && (changed <==> (e.state.Alive? || e.state.Suspect?) && ev.incarnation >= e.incarnation)
                && (changed ==>
                      && fired == [Notice(e.info, Dead)]
                      && members == old(members)[ev.nodeId := Entry(e.info, Dead, ev.incarnation, e.since)])
      ensures !changed ==> members == old(members) && fired == []
    {
      if !known {
        members := members[ev.nodeId := Entry(NodeInfo(ev.nodeId, ev.host, ev.port), Dead, ev.incarnation, 0)];
        return true, [];
      }
      var e := members[ev.nodeId];
      if e.state.Dead? { return false, []; }
      if e.state.Left? { return false, []; }
      if ev.incarnation < e.incarnation { return false, []; }
      members := members[ev.nodeId := e.(state := Dead, incarnation := ev.incarnation)];
      return true, [Notice(e.info, Dead)];
    }

    method ApplyLeave(ev: Event, known: bool) returns (changed: bool, fired: seq<Notice>)
      requires ev.nodeId != self.nodeId && ev.kind.Leave? && known == (ev.nodeId in members)
      modifies this
      ensures forall now :: Result(State(), changed, fired) == ApplyEvent(old(State()), ev, now)
      ensures incarnation == old(incarnation) && selfLeft == old(selfLeft) && pending == old(pending)
      ensures !known ==>
                && changed && fired == []
                && members == old(members)[ev.nodeId :=
                     Entry(NodeInfo(ev.nodeId, ev.host, ev.port), Left, ev.incarnation, 0)]
      ensures known ==>
                var e := old(members)[ev.nodeId];
                && (changed <==> !e.state.Left?)
                && (changed ==>
                      && fired == [Notice(e.info, Left)]
                      && members == old(members)[ev.nodeId := Entry(e.info, Left, e.incarnation, e.since)])
      ensures !changed ==> members == old(members) && fired == []
    {
      if !known {
        members := members[ev.nodeId := Entry(NodeInfo(ev.nodeId, ev.host, ev.port), Left, ev.incarnation, 0)];
        return true, [];
      }
      var e := members[ev.nodeId];
      if e.state.Left? { return false, []; }
      members := members[ev.nodeId := e.(state := Left)];
      return true, [Notice(e.info, Left)];
    }

    /** `applyDirectJoin`: the incarnation to announce the joiner at, or None when it is refused. */
    method ApplyDirectJoin(ev: Event) returns (eff: Option<nat>, fired: seq<Notice>)
      modifies this
      ensures State() == DirectJoin(old(State()), ev).state && fired == DirectJoin(old(State()), ev).fired
      ensures ev.nodeId == self.nodeId ==> eff == Some(incarnation)
      ensures ev.nodeId != self.nodeId ==>
                eff == if DirectJoin(old(State()), ev).changed
                       then Some(State().view.members[ev.nodeId].incarnation) else None
      ensures incarnation == old(incarnation) && selfLeft == old(selfLeft) && pending == old(pending)
      ensures ev.nodeId == self.nodeId ==> members == old(members) && fired == []
      ensures ev.nodeId != self.nodeId && ev.nodeId !in old(members) ==>
                && fired == [Notice(NodeInfo(ev.nodeId, ev.host, ev.port), Alive)] && eff == Some(ev.incarnation)
                && members == old(members)[ev.nodeId :=
                     Entry(NodeInfo(ev.nodeId, ev.host, ev.port), Alive, ev.incarnation, 0)]
      ensures ev.nodeId != self.nodeId && ev.nodeId in old(members) ==>
                var e := old(members)[ev.nodeId];
                var info := if ev.host == "" then e.info else NodeInfo(e.info.nodeId, ev.host, ev.port);
                if e.state.Left? then eff == None && members == old(members) && fired == []
                else
                  && eff.Some? && eff.value >= ev.incarnation && eff.value > e.incarnation
                  && (eff.value == ev.incarnation || eff.value == e.incarnation + 1)
                  && members == old(members)[ev.nodeId := Entry(info, Alive, eff.value, e.since)]
                  && fired == if e.state.Alive? then [] else [Notice(info, Alive)]
    {
      if ev.nodeId == self.nodeId { return Some(incarnation), []; }
      if ev.nodeId !in members {
        var e := Entry(NodeInfo(ev.nodeId, ev.host, ev.port), Alive, ev.incarnation, 0);
        members := members[ev.nodeId := e];
        return Some(ev.incarnation), [Notice(e.info, Alive)];
      }
      var e := members[ev.nodeId];
      if e.state.Left? { return None, []; }
      var bumped := if ev.incarnation >= e.incarnation + 1 then ev.incarnation else e.incarnation + 1;
      var changed := !e.state.Alive?;
      var info := if ev.host != "" then e.info.(host := ev.host, port := ev.port) else e.info;
      e := e.(state := Alive, incarnation := bumped, info := info);
      members := members[ev.nodeId := e];
      return Some(bumped), if changed then [Notice(e.info, Alive)] else [];
    }

    method Leave(id: string) returns (fired: seq<Notice>)
      modifies this
      ensures State() == LeaveNode(old(State()), id).state && fired == LeaveNode(old(State()), id).fired
      ensures incarnation == old(incarnation) && (selfLeft <==> old(selfLeft) || id == self.nodeId)
      ensures id == self.nodeId ==>
                && members == old(members)
                && if old(selfLeft) then pending == old(pending) && fired == []
                   else
                     && fired == [Notice(self, Left)]
                     && Appended(old(pending), pending, Events.Event(Events.Leave, id, "", 0, incarnation), |members|)
      ensures id != self.nodeId ==>
                if id !in old(members) || old(members)[id].state.Left?
                then members == old(members) && pending == old(pending) && fired == []
                else
                  var e := old(members)[id];
                  && members == old(members)[id := Entry(e.info, Left, e.incarnation, e.since)]
                  && fired == [Notice(e.info, Left)]
                  && Appended(old(pending), pending, Events.Event(Events.Leave, id, "", 0, e.incarnation), |members|)
    {
      if id == self.nodeId {
        if selfLeft { return []; }
        selfLeft := true;
        EnqueueEvent(ShortEvent(Events.Leave, id, incarnation));
        return [Notice(self, Left)];
      }
      if id !in members { return []; }
      if members[id].state.Left? { return []; }
      members := members[id := members[id].(state := Left)];
      EnqueueEvent(ShortEvent(Events.Leave, id, members[id].incarnation));
      return [Notice(members[id].info, Left)];
    }

    method MarkSuspect(id: string, now: nat)
      modifies this
      ensures State() == SuspectNode(old(State()), id, now).state
      ensures incarnation == old(incarnation) && selfLeft == old(selfLeft)
      ensures if id !in old(members) || !old(members)[id].state.Alive?
              then members == old(members) && pending == old(pending)
              else
                var e := old(members)[id];
                && members == old(members)[id := Entry(e.info, Suspect, e.incarnation, now)]
                && Appended(old(pending), pending, Events.Event(Events.Suspect, id, "", 0, e.incarnation), |members|)
    {
      if id !in members || !members[id].state.Alive? { return; }
      members := members[id := members[id].(state := Suspect, since := now)];
      EnqueueEvent(ShortEvent(Events.Suspect, id, members[id].incarnation));
    }

    method MarkDead(id: string) returns (fired: seq<Notice>)
      modifies this
      ensures State() == ConfirmDead(old(State()), id).state && fired == ConfirmDead(old(State()), id).fired
      ensures incarnation == old(incarnation) && selfLeft == old(selfLeft)
      ensures if id !in old(members) || old(members)[id].state.Dead? || old(members)[id].state.Left?
              then members == old(members) && pending == old(pending) && fired == []
              else
                var e := old(members)[id];
                && members == old(members)[id := Entry(e.info, Dead, e.incarnation, e.since)]
                && fired == [Notice(e.info, Dead)]
                && Appended(old(pending), pending, Events.Event(Events.Dead, id, "", 0, e.incarnation), |members|)
    {
      if id !in members || members[id].state.Dead? { return []; }
      if members[id].state.Left? { return []; }
      members := members[id := members[id].(state := Dead)];
      EnqueueEvent(ShortEvent(Events.Dead, id, members[id].incarnation));
      return [Notice(members[id].info, Dead)];
    }

    method ExpireSuspects(now: nat, timeout: nat) returns (fired: seq<Notice>)
      modifies this
      ensures
        var r := ExpireAll(old(State()), MemberIds(old(State()).view), now, timeout);
        State() == r.state && fired == r.fired
      ensures incarnation == old(incarnation) && selfLeft == old(selfLeft) && members.Keys == old(members).Keys
      ensures forall id | id in members ::
                members[id] == if Overdue(old(members)[id], now, timeout) then old(members)[id].(state := Dead)
                               else old(members)[id]
      ensures forall nt :: nt in fired <==>
                exists id :: id in old(members) && Overdue(old(members)[id], now, timeout) &&
                             nt == Notice(old(members)[id].info, Dead)
      ensures old(pending) <= pending && |pending| == |old(pending)| + |fired|
    {
      hide MemberIds, ExpireAll, ConfirmDead;
      ExpireMeans(State(), MemberIds(State().view), now, timeout);
      var ids := MemberIds(State().view);
      fired := [];
      var i := 0;
      ExpireNone(State(), ids, now, timeout);
      while i < |ids|
        invariant 0 <= i <= |ids|
        invariant
          var r := ExpireAll(old(State()), ids[..i], now, timeout);
          State() == r.state && fired == r.fired
      {
        ExpireNext(old(State()), ids, i, now, timeout);
        var id := ids[i];
        if id in members && members[id].state.Suspect? && now >= members[id].since + timeout {
          var f := MarkDead(id);
          fired := fired + f;
        }
        i := i + 1;
      }
      assert ids[..i] == ids;
    }

    /** Every queued event once more, dropping those whose budget is spent. */
    method GetEventsToSend() returns (out: seq<Event>)
      modifies this
      ensures out == Piggybacked(old(pending))
      ensures State() == old(State()).(pending := Spent(old(pending)))
      ensures |out| == |old(pending)| && forall i | 0 <= i < |out| :: out[i] == old(pending)[i].event
      ensures forall q ::
                Times(pending, q) ==
                if q.remaining >= 1 then Times(old(pending), Pending(q.event, q.remaining + 1)) else 0
    {
      var left;
      out, left := SpendQueue(pending);
      forall q { SpentKeeps(pending, q); }
      pending := left;
    }

    /** The erasing loop over the queue. */
    static method SpendQueue(queue: seq<Pending>) returns (out: seq<Event>, left: seq<Pending>)
      ensures out == Piggybacked(queue) && left == Spent(queue)
    {
      hide Spent, Piggybacked;
      out, left := [], queue;
      SpentNone(queue);
      var i := 0;
      while i < |left|
        invariant |out| <= |queue| && out == Piggybacked(queue[..|out|])
        invariant i == |Spent(queue[..|out|])| && i <= |left|
        invariant left[..i] == Spent(queue[..|out|]) && left[i..] == queue[|out|..]
        decreases |left| - i
      {
        ghost var k := |out|;
        SpendOne(queue, k);
        var p := left[i];
        assert p == left[i..][0] == queue[k];
        assert left[i + 1..] == left[i..][1..] == queue[k + 1..];
        out := out + [p.event];
        if p.remaining - 1 <= 0 {
          left := left[..i] + left[i + 1..];
        } else {
          left := left[i := p.(remaining := p.remaining - 1)];
          i := i + 1;
        }
      }
      assert queue[..|queue|] == queue && left == left[..i];
    }

    method RefuteSelf() returns (inc: nat)
      modifies this
      ensures State() == Refute(old(State())) && inc == incarnation
      ensures incarnation == old(incarnation) + 1 && selfLeft == old(selfLeft) && members == old(members)
      ensures Appended(old(pending), pending,
                       Events.Event(Events.Alive, self.nodeId, self.host, self.port, incarnation), |members|)
    {
      incarnation := incarnation + 1;
      EnqueueEvent(Events.Event(Events.Alive, self.nodeId, self.host, self.port, incarnation));
      return incarnation;
    }

    /** `alivePeers`, `deadPeers` and `allMembers`: the members in a wanted state, in id order. */
    method PeersIn(want: MemberState -> bool) returns (out: seq<Entry>)
      ensures out == Selected(State().view, MemberIds(State().view), want)
      ensures forall e | e in out :: want(e.state) && exists id :: id in members && members[id] == e
      ensures forall id | id in members && want(members[id].state) :: members[id] in out
    {
      hide MemberIds;
      out := SelectFrom(State().view, MemberIds(State().view), want);
    }

    static method SelectFrom(v: View, ids: seq<string>, want: MemberState -> bool) returns (out: seq<Entry>)
      requires forall id | id in ids :: id in v.members
      ensures out == Selected(v, ids, want)
      ensures forall e | e in out :: want(e.state) && exists id :: id in v.members && v.members[id] == e
      ensures forall id | id in ids && want(v.members[id].state) :: v.members[id] in out
    {
      out := [];
      for i := 0 to |ids|
        invariant out == Selected(v, ids[..i], want)
        invariant forall e | e in out :: want(e.state) && exists id :: id in v.members && v.members[id] == e
        invariant forall id | id in ids[..i] && want(v.members[id].state) :: v.members[id] in out
      {
        assert ids[..i + 1][..i] == ids[..i] && ids[i] in ids;
        if want(v.members[ids[i]].state) { out := out + [v.members[ids[i]]]; }
      }
      assert ids[..|ids|] == ids;
    }

    method Digest(hash: string -> bv64) returns (h: bv64)
      requires WellFormed(State().view)
      ensures h == XorAll(hash, Abs(State().view))
    {
      hide MemberIds, Rendered, Xor;
      ghost var v := State().view;
      var ids := MemberIds(State().view);
      var own := SeenSelf(State().view);
      h := hash(Rendered(self.nodeId, own));
      XorSingle(hash, self.nodeId, own);
      var i := 0;
      assert PartAbs(v, ids[..0]) == map[self.nodeId := own];
      while i < |ids|
        invariant 0 <= i <= |ids| && State().view == v
        invariant h == XorAll(hash, PartAbs(v, ids[..i]))
      {
        assert ids[i] in ids;
        var e := members[ids[i]];
        var d := Digest1(e.state, e.incarnation);
        PartAbsNext(v, ids, i);
        XorAdd(hash, PartAbs(v, ids[..i]), ids[i], d);
        h := Xor(hash(Rendered(ids[i], d)), h);
        i := i + 1;
      }
      assert ids[..i] == ids;
      PartAbsAll(v, ids);
    }

    method GetFullState() returns (out: seq<Event>)
      ensures out == FullState(State().view)
    {
      hide MemberIds;
      var v := State().view;
      var rest := CollectEvents(v, MemberIds(v));
      out := [SelfEvent(v)] + rest;
    }

    static method CollectEvents(v: View, ids: seq<string>) returns (out: seq<Event>)
      requires forall id | id in ids :: id in v.members
      ensures out == MemberEvents(v, ids)
    {
      hide EntryEvent;
      out := [];
      for i := 0 to |ids|
        invariant out == MemberEvents(v, ids)[..i]
      {
        assert ids[i] in ids;
        out := out + [EntryEvent(ids[i], v.members[ids[i]])];
      }
    }
  }

  /** A suspicion whose timeout has elapsed. */
  predicate Overdue(e: Entry, now: nat, timeout: nat) { e.state.Suspect? && now - e.since >= timeout }

  /** What expiring the listed members leaves. */
  ghost predicate ExpiredAmong(s: SwimState, ids: seq<string>, now: nat, timeout: nat, r: Result) {
    var v, w := s.view, r.state.view;
    && w.self == v.self && w.incarnation == v.incarnation && w.left == v.left && w.members.Keys == v.members.Keys
    && (forall id | id in v.members ::
          w.members[id] == if id in ids && Overdue(v.members[id], now, timeout) then v.members[id].(state := Dead)
                           else v.members[id])
    && (forall nt :: nt in r.fired <==> exists id :: Reported(v, ids, now, timeout, id, nt))
    && s.pending <= r.state.pending && |r.state.pending| == |s.pending| + |r.fired|
  }

  ghost predicate Reported(v: View, ids: seq<string>, now: nat, timeout: nat, id: string, nt: Notice) {
    id in ids && id in v.members && Overdue(v.members[id], now, timeout) && nt == Notice(v.members[id].info, Dead)
  }

  lemma ExpireOneMore(s: SwimState, ids: seq<string>, now: nat, timeout: nat, r: Result, id: string)
    requires ExpiredAmong(s, ids, now, timeout, r) && id !in ids
    ensures
      var q := ExpireOne(r.state, id, now, timeout);
      ExpiredAmong(s, ids + [id], now, timeout, Result(q.state, r.changed || q.changed, r.fired + q.fired))
  {
    hide ExpireAll;
    var v := s.view;
    var q := ExpireOne(r.state, id, now, timeout);
    forall nt ensures nt in r.fired + q.fired <==> exists x :: Reported(v, ids + [id], now, timeout, x, nt) {
      if x :| Reported(v, ids, now, timeout, x, nt) { assert Reported(v, ids + [id], now, timeout, x, nt); }
      if x :| Reported(v, ids + [id], now, timeout, x, nt) {
        if x != id { assert Reported(v, ids, now, timeout, x, nt); }
      }
      if nt in q.fired { assert Reported(v, ids + [id], now, timeout, id, nt); }
    }
  }

  lemma {:induction false} ExpireAllMeans(s: SwimState, ids: seq<string>, now: nat, timeout: nat)
    requires forall i, j | 0 <= i < j < |ids| :: ids[i] != ids[j]
    ensures ExpiredAmong(s, ids, now, timeout, ExpireAll(s, ids, now, timeout))
    decreases |ids|
  {
    hide ExpireOne, ExpiredAmong;
    if ids == [] {
      ExpireEmpty(s, now, timeout);
    } else {
      var init := ids[..|ids| - 1];
      ExpireAllMeans(s, init, now, timeout);
      ExpireOneMore(s, init, now, timeout, ExpireAll(s, init, now, timeout), ids[|ids| - 1]);
      assert init + [ids[|ids| - 1]] == ids;
    }
  }

  lemma ExpireEmpty(s: SwimState, now: nat, timeout: nat)
    ensures ExpiredAmong(s, [], now, timeout, Result(s, false, []))
  {
  }

  lemma ExpireMeans(s: SwimState, ids: seq<string>, now: nat, timeout: nat)
    requires (forall i, j | 0 <= i < j < |ids| :: ids[i] != ids[j]) && forall id :: id in ids <==> id in s.view.members
    ensures
      var r, m := ExpireAll(s, ids, now, timeout), s.view.members;
      && r.state.view.incarnation == s.view.incarnation && r.state.view.left == s.view.left
      && r.state.view.members.Keys == m.Keys
      && (forall id | id in m ::
            r.state.view.members[id] == if Overdue(m[id], now, timeout) then m[id].(state := Dead) else m[id])
      && (forall nt :: nt in r.fired <==>
            exists id :: id in m && Overdue(m[id], now, timeout) && nt == Notice(m[id].info, Dead))
      && s.pending <= r.state.pending && |r.state.pending| == |s.pending| + |r.fired|
  {
    hide ExpireAll;
    ExpireAllMeans(s, ids, now, timeout);
    var m, r := s.view.members, ExpireAll(s, ids, now, timeout);
    forall nt
      ensures nt in r.fired <==>
                exists id :: id in m && Overdue(m[id], now, timeout) && nt == Notice(m[id].info, Dead)
    {
      if id :| id in m && Overdue(m[id], now, timeout) && nt == Notice(m[id].info, Dead) {
        assert Reported(s.view, ids, now, timeout, id, nt);
      }
    }
  }

  lemma SpentSnoc(init: seq<Pending>, p: Pending)
    ensures
      Spent(init + [p]) == Spent(init) + if p.remaining <= 1 then [] else [Pending(p.event, p.remaining - 1)]
  {
    assert (init + [p])[..|init|] == init;
  }

  /** How often a queue holds an entry. */
  ghost function Times(ps: seq<Pending>, q: Pending): nat { multiset(ps)[q] }

  lemma TimesSnoc(init: seq<Pending>, p: Pending, q: Pending)
    ensures Times(init + [p], q) == Times(init, q) + if p == q then 1 else 0
  {
  }

  lemma SpentNever(q: Pending)
    ensures Times(Spent([]), q) == 0
  {
  }

  /** What is left of a queue: every entry with sends to spare, one fewer, as often as it was queued. */
  lemma {:induction false} SpentKeeps(ps: seq<Pending>, q: Pending)
    ensures Times(Spent(ps), q) == if q.remaining >= 1 then Times(ps, Pending(q.event, q.remaining + 1)) else 0
    decreases |ps|
  {
    hide Spent, Times;
    if ps == [] {
      SpentNever(q);
      NeverQueued(Pending(q.event, q.remaining + 1));
    } else {
      var init, p := ps[..|ps| - 1], ps[|ps| - 1];
      assert ps == init + [p];
      SpentKeeps(init, q);
      SpentSnoc(init, p);
      TimesSnoc(init, p, Pending(q.event, q.remaining + 1));
      if p.remaining <= 1 {
        assert Spent(init) + [] == Spent(init);
      } else {
        TimesSnoc(Spent(init), Pending(p.event, p.remaining - 1), q);
      }
    }
  }

  lemma NeverQueued(q: Pending)
    ensures Times([], q) == 0
  {
  }

  lemma ExpireNone(s: SwimState, ids: seq<string>, now: nat, timeout: nat)
    ensures ExpireAll(s, ids[..0], now, timeout) == Result(s, false, [])
  {
  }

  lemma SpentNone(queue: seq<Pending>)
    ensures Piggybacked(queue[..0]) == [] && Spent(queue[..0]) == []
  {
  }

  lemma ExpireNext(s: SwimState, ids: seq<string>, i: nat, now: nat, timeout: nat)
    requires i < |ids|
    ensures
      var r := ExpireAll(s, ids[..i], now, timeout);
      var q := ExpireOne(r.state, ids[i], now, timeout);
      ExpireAll(s, ids[..i + 1], now, timeout) == Result(q.state, r.changed || q.changed, r.fired + q.fired)
  {
    assert ids[..i + 1][..i] == ids[..i];
  }

  lemma SpendOne(queue: seq<Pending>, k: nat)
    requires k < |queue|
    ensures Piggybacked(queue[..k + 1]) == Piggybacked(queue[..k]) + [queue[k].event]
    ensures Spent(queue[..k + 1]) ==
            Spent(queue[..k]) + if queue[k].remaining <= 1 then [] else [queue[k].(remaining := queue[k].remaining - 1)]
  {
    assert queue[..k + 1][..k] == queue[..k];
  }

  /** The entries of the listed members whose state is wanted. */
  function Selected(v: View, ids: seq<string>, want: MemberState -> bool): seq<Entry>
    requires forall id | id in ids :: id in v.members
  {
    if ids == [] then []
    else
      var e := v.members[ids[|ids| - 1]];
      Selected(v, ids[..|ids| - 1], want) + if want(e.state) then [e] else []
  }

  lemma XorSingle(hash: string -> bv64, id: string, d: Digested)
    ensures XorAll(hash, map[id := d]) == hash(Rendered(id, d))
  {
    XorTakeOut(hash, map[id := d], id);
    assert map[id := d] - {id} == map[];
  }

  /** The abstract view restricted to self and the listed members. */
  ghost function PartAbs(v: View, ids: seq<string>): map<string, Digested>
    requires forall id | id in ids :: id in v.members
  {
    (map id | id in v.members && id in ids :: Digest1(v.members[id].state, v.members[id].incarnation))
      [v.self.nodeId := SeenSelf(v)]
  }

  lemma PartAbsNext(v: View, ids: seq<string>, i: nat)
    requires WellFormed(v) && i < |ids| && forall id | id in ids :: id in v.members
    requires forall j, k | 0 <= j < k < |ids| :: ids[j] != ids[k]
    ensures ids[i] !in PartAbs(v, ids[..i])
    ensures PartAbs(v, ids[..i + 1]) ==
            PartAbs(v, ids[..i])[ids[i] := Digest1(v.members[ids[i]].state, v.members[ids[i]].incarnation)]
  {
    assert ids[i] in ids;
    assert ids[..i + 1] == ids[..i] + [ids[i]];
  }

  lemma PartAbsAll(v: View, ids: seq<string>)
    requires forall id :: id in ids <==> id in v.members
    ensures PartAbs(v, ids) == Abs(v)
  {
  }
}
