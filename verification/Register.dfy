/**
 One key as a quorum register: every run of puts, deliveries, acknowledgements,
 reads and repairs over a fixed set of live owners.

 All writes of the key are coordinated by its primary owner; any node may
 coordinate a read.  Messages may be delayed, reordered, delivered repeatedly or
 lost.  A put's clock bump and local store are one step, and a client's context
 is always empty or a clock some earlier request returned.
 */
module Register {
  import opened Text
  import opened Orders
  import opened Clocks
  import opened Versions
  import opened Replica
  import opened Coordinator

  type Node = string

  /** The owners of the key, its primary, the two quorums and the clock bound. */
  datatype Config = Config(owners: set<Node>, primary: Node, w: nat, r: nat, k: nat)

  ghost predicate Sound(c: Config) {
    c.primary in c.owners && c.w + c.r > |c.owners| && c.k >= 1
  }

  datatype Write = Write(version: Version, acks: set<Node>, done: bool)

  /** `earlier` records, for each write acknowledged before the read started, who had acknowledged it. */
  datatype Read = Read(reader: Node, earlier: map<nat, set<Node>>, responses: seq<Resp>, result: Option<seq<Version>>)

  /** `sent` and `applied` only grow, so a message can be delivered any number of times.  `log` is history. */
  datatype State = State(
    stores: map<Node, Option<Version>>,
    sent: set<(Node, Version)>,
    applied: set<(Node, Version)>,
    puts: map<nat, Write>,
    gets: map<nat, Read>,
    returned: set<Clock>,
    log: seq<Version>)

  datatype Action =
    | Put(id: nat, data: seq<Base64.byte>, deleted: bool, context: Clock, now: nat)
    | Deliver(node: Node, version: Version)
    | Ack(id: nat, node: Node)
    | WriteOk(id: nat)
    | StartRead(id: nat, reader: Node)
    | Reply(id: nat, node: Node)
    | EndRead(id: nat, m: seq<Version>)

  ghost function Initial(c: Config): State {
    State(map n | n in c.owners :: None, {}, {}, map[], map[], {}, [])
  }

  function LocalClock(o: Option<Version>): Clock { if o.Some? then o.value.clock else map[] }

  function Peers(rs: seq<Resp>): seq<Node> { seq(|rs|, i requires 0 <= i < |rs| => rs[i].peer) }

  ghost predicate Enabled(c: Config, s: State, a: Action) {
    match a
    case Put(id, _, _, context, _) => id !in s.puts && (context == map[] || context in s.returned)
    case Deliver(n, v) => (n, v) in s.sent && n in s.stores
    case Ack(id, n) => id in s.puts && (n, s.puts[id].version) in s.applied
    case WriteOk(id) => id in s.puts && |s.puts[id].acks| >= c.w
    case StartRead(id, _) => id !in s.gets
    case Reply(id, n) => id in s.gets && s.gets[id].result.None? && n in s.stores
                         && n !in Peers(s.gets[id].responses) && n != s.gets[id].reader
    case EndRead(id, m) => id in s.gets && s.gets[id].result.None? && |s.gets[id].responses| >= c.r
                           && IsMaximalList(Found(s.gets[id].responses), m)
  }

  ghost function PutVersion(c: Config, s: State, a: Action): Version
    requires a.Put? && c.primary in s.stores
  {
    Version(a.data, Bumped(a.context, LocalClock(s.stores[c.primary]), c.primary, a.now, c.k), a.deleted)
  }

  ghost predicate RepairsItself(rd: Read, m: seq<Version>) {
    exists v :: (rd.reader, v) in Repairs(rd.responses, m)
  }

  ghost function DoPut(c: Config, s: State, id: nat, v: Version): State {
    s.(stores := s.stores[c.primary := Some(v)],
       sent := s.sent + (set n | n in c.owners && n != c.primary :: (n, v)),
       puts := s.puts[id := Write(v, {c.primary}, false)],
       log := s.log + [v])
  }

  ghost function DoDeliver(s: State, n: Node, v: Version): State
    requires n in s.stores
  {
    s.(stores := s.stores[n := Some(Replicated(s.stores[n], v))], applied := s.applied + {(n, v)})
  }

  ghost function DoStart(s: State, id: nat, reader: Node): State {
    var earlier := map w | w in s.puts && s.puts[w].done :: s.puts[w].acks;
    var local := if reader in s.stores then [Resp(reader, s.stores[reader])] else [];
    s.(gets := s.gets[id := Read(reader, earlier, local, None)])
  }

  ghost function DoAck(s: State, id: nat, n: Node): State
    requires id in s.puts
  {
    s.(puts := s.puts[id := s.puts[id].(acks := s.puts[id].acks + {n})])
  }

  ghost function DoWriteOk(s: State, id: nat): State
    requires id in s.puts
  {
    s.(puts := s.puts[id := s.puts[id].(done := true)], returned := s.returned + {s.puts[id].version.clock})
  }

  ghost function DoReply(s: State, id: nat, n: Node): State
    requires id in s.gets && n in s.stores
  {
    var rd := s.gets[id];
    s.(gets := s.gets[id := rd.(responses := rd.responses + [Resp(n, s.stores[n])])])
  }

  /** Repairs are sent to the stale responders; the reader's own stale copy is overwritten at once. */
  ghost function DoEnd(s: State, id: nat, rd: Read, m: seq<Version>): State {
    s.(gets := s.gets[id := rd.(result := Some(m))],
       stores := if RepairsItself(rd, m) && rd.reader in s.stores && m != []
                 then s.stores[rd.reader := Some(m[0])] else s.stores,
       sent := s.sent + (set p | p in Repairs(rd.responses, m) && p.0 != rd.reader),
       returned := s.returned + set x | x in m :: x.clock)
  }

  ghost function Next(c: Config, s: State, a: Action): State
    requires Enabled(c, s, a) && c.primary in s.stores
  {
    match a
    case Put(id, _, _, _, _) => DoPut(c, s, id, PutVersion(c, s, a))
    case Deliver(n, v) => DoDeliver(s, n, v)
    case Ack(id, n) => DoAck(s, id, n)
    case WriteOk(id) => DoWriteOk(s, id)
    case StartRead(id, reader) => DoStart(s, id, reader)
    case Reply(id, n) => DoReply(s, id, n)
    case EndRead(id, m) => DoEnd(s, id, s.gets[id], m)
  }

  /**
   The guard the replica rule has and the coordinator's own repair lacks: the copy
   about to be overwritten has not meanwhile moved past the version written over it.
   */
  ghost predicate RepairsForward(s: State, a: Action) {
    a.EndRead? && a.id in s.gets && RepairsItself(s.gets[a.id], a.m) ==>
      |a.m| == 1 && s.gets[a.id].reader in s.stores &&
      Replicated(s.stores[s.gets[a.id].reader], a.m[0]) == a.m[0]
  }

  // -------------------------------------------------------------------------
  // The invariant
  // -------------------------------------------------------------------------

  function Seen(c: Config, v: Version): nat { Count(v.clock, c.primary) }

  function Level(c: Config, o: Option<Version>): nat { if o.Some? then Seen(c, o.value) else 0 }

  /** The i-th write carries the clock {primary: i + 1}. */
  ghost predicate LogOk(c: Config, log: seq<Version>) {
    forall i | 0 <= i < |log| :: log[i].clock.Keys == {c.primary} && Seen(c, log[i]) == i + 1
  }

  /** `v` is the write its counter says it is. */
  ghost predicate InLog(c: Config, log: seq<Version>, v: Version) {
    1 <= Seen(c, v) <= |log| && log[Seen(c, v) - 1] == v
  }

  /** The primary holds the latest write and every copy is some write. */
  ghost predicate CopiesOk(c: Config, s: State) {
    && LogOk(c, s.log)
    && s.stores.Keys == c.owners && c.primary in s.stores
    && s.stores[c.primary] == (if s.log == [] then None else Some(s.log[|s.log| - 1]))
    && (forall n | n in s.stores && s.stores[n].Some? :: InLog(c, s.log, s.stores[n].value))
  }

  ghost predicate MessagesOk(c: Config, s: State) {
    && (forall p | p in s.sent :: p.0 in c.owners && InLog(c, s.log, p.1))
    && (forall p | p in s.applied :: p.0 in s.stores && Level(c, s.stores[p.0]) >= Seen(c, p.1))
    && (forall k | k in s.returned :: k.Keys <= {c.primary} && Count(k, c.primary) <= |s.log|)
  }

  ghost predicate StoresOk(c: Config, s: State) {
    CopiesOk(c, s) && MessagesOk(c, s)
  }

  ghost predicate WriteHolds(c: Config, s: State, wr: Write) {
    && InLog(c, s.log, wr.version) && wr.acks <= c.owners
    && (forall n | n in wr.acks :: n in s.stores && Level(c, s.stores[n]) >= Seen(c, wr.version))
    && (wr.done ==> |wr.acks| >= c.w)
  }

  ghost predicate WritesOk(c: Config, s: State) {
    forall id | id in s.puts :: WriteHolds(c, s, s.puts[id])
  }

  /** Everything the read has collected is in the log and covers the writes acknowledged before it. */
  ghost predicate ReadHolds(c: Config, s: State, rd: Read) {
    && Distinct(Peers(rd.responses))
    && (forall r | r in rd.responses :: r.peer in c.owners && (r.found.Some? ==> InLog(c, s.log, r.found.value)))
    && (forall w | w in rd.earlier :: EarlierHolds(c, s, rd, w))
    && (rd.result.Some? ==> SafeResult(c, s, rd))
  }

  ghost predicate EarlierHolds(c: Config, s: State, rd: Read, w: nat) {
    && w in s.puts && w in rd.earlier && |rd.earlier[w]| >= c.w
    && rd.earlier[w] <= s.puts[w].acks
    && forall r | r in rd.responses && r.peer in rd.earlier[w] :: Level(c, r.found) >= Seen(c, s.puts[w].version)
  }

  /** A finished read returned at most one version, at least as new as every write acknowledged before it. */
  ghost predicate SafeResult(c: Config, s: State, rd: Read) {
    && rd.result.Some? && |rd.result.value| <= 1
    && (forall v | v in rd.result.value :: InLog(c, s.log, v))
    && forall w | w in rd.earlier :: w in s.puts && |rd.result.value| == 1 &&
         NewerOrSame(rd.result.value[0], s.puts[w].version)
  }

  ghost predicate NewerOrSame(v: Version, w: Version) {
    Leq(w.clock, v.clock) && (Leq(v.clock, w.clock) ==> v == w)
  }

  ghost predicate ReadsOk(c: Config, s: State) {
    forall id | id in s.gets :: ReadHolds(c, s, s.gets[id])
  }

  ghost predicate Inv(c: Config, s: State) {
    StoresOk(c, s) && WritesOk(c, s) && ReadsOk(c, s)
  }

  // -------------------------------------------------------------------------
  // The log is a chain
  // -------------------------------------------------------------------------

  /** Versions of the log are ordered by their counter, and the counter identifies them. */
  lemma LogChain(c: Config, log: seq<Version>, u: Version, v: Version)
    requires LogOk(c, log) && InLog(c, log, u) && InLog(c, log, v)
    ensures Leq(u.clock, v.clock) <==> Seen(c, u) <= Seen(c, v)
    ensures Leq(v.clock, u.clock) <==> Seen(c, v) <= Seen(c, u)
    ensures Seen(c, u) == Seen(c, v) ==> u == v
    ensures u.clock.Keys == {c.primary}
  {
    assert c.primary in u.clock && c.primary in v.clock;
  }

  /** The replica rule, on the log, is taking the maximum. */
  lemma ReplicatedLevel(c: Config, log: seq<Version>, o: Option<Version>, v: Version)
    requires LogOk(c, log) && InLog(c, log, v) && (o.Some? ==> InLog(c, log, o.value))
    ensures InLog(c, log, Replicated(o, v))
    ensures Seen(c, Replicated(o, v)) == if Level(c, o) >= Seen(c, v) then Level(c, o) else Seen(c, v)
  {
    if o.Some? { LogChain(c, log, o.value, v); }
  }

  /** A put appends the next counter, whatever context it carries. */
  lemma PutAppends(c: Config, s: State, a: Action)
    requires Sound(c) && StoresOk(c, s) && a.Put? && Enabled(c, s, a)
    ensures LogOk(c, s.log + [PutVersion(c, s, a)])
    ensures Seen(c, PutVersion(c, s, a)) == |s.log| + 1
  {
    var local := LocalClock(s.stores[c.primary]);
    assert Count(local, c.primary) == |s.log|;
    var raised := Raised(a.context, local, c.primary, a.now);
    assert raised.Keys == {c.primary};
    assert |raised| == |raised.Keys| == 1;
    assert PutVersion(c, s, a).clock == raised;
  }

  // -------------------------------------------------------------------------
  // Every step moves every copy forward
  // -------------------------------------------------------------------------

  /** From `s` to `t` the log was extended, no copy went back and no acknowledgement was withdrawn. */
  ghost predicate Grows(c: Config, s: State, t: State) {
    && s.log <= t.log && s.stores.Keys == t.stores.Keys
    && (forall n | n in s.stores :: Level(c, s.stores[n]) <= Level(c, t.stores[n]))
    && (forall id | id in s.puts :: id in t.puts && s.puts[id].version == t.puts[id].version
                                    && s.puts[id].acks <= t.puts[id].acks)
  }

  lemma PutGrows(c: Config, s: State, id: nat, v: Version)
    requires Sound(c) && CopiesOk(c, s) && LogOk(c, s.log + [v]) && Seen(c, v) == |s.log| + 1 && id !in s.puts
    ensures CopiesOk(c, DoPut(c, s, id, v)) && Grows(c, s, DoPut(c, s, id, v))
  {
    assert Level(c, s.stores[c.primary]) == |s.log|;
  }

  lemma DeliverGrows(c: Config, s: State, n: Node, v: Version)
    requires CopiesOk(c, s) && n in s.stores && InLog(c, s.log, v)
    ensures CopiesOk(c, DoDeliver(s, n, v)) && Grows(c, s, DoDeliver(s, n, v))
    ensures Level(c, DoDeliver(s, n, v).stores[n]) >= Seen(c, v)
  {
    ReplicatedLevel(c, s.log, s.stores[n], v);
    if n == c.primary { LogChain(c, s.log, Replicated(s.stores[n], v), s.stores[n].value); }
    OverwriteGrows(c, s, DoDeliver(s, n, v), n, Replicated(s.stores[n], v));
  }

  /** What was said about messages stays true when copies advance; only new messages need checking. */
  lemma MessagesStay(c: Config, s: State, t: State)
    requires MessagesOk(c, s) && Grows(c, s, t)
    requires forall p | p in t.sent - s.sent :: p.0 in c.owners && InLog(c, t.log, p.1)
    requires forall p | p in t.applied - s.applied :: p.0 in t.stores && Level(c, t.stores[p.0]) >= Seen(c, p.1)
    requires forall k | k in t.returned - s.returned :: k.Keys <= {c.primary} && Count(k, c.primary) <= |t.log|
    ensures MessagesOk(c, t)
  {
    forall p | p in t.sent ensures p.0 in c.owners && InLog(c, t.log, p.1) {}
    forall p | p in t.applied ensures p.0 in t.stores && Level(c, t.stores[p.0]) >= Seen(c, p.1) {}
    forall k | k in t.returned ensures k.Keys <= {c.primary} && Count(k, c.primary) <= |t.log| {}
  }

  /** The versions a read returns come from the log. */
  lemma ResultInLog(c: Config, s: State, rd: Read, m: seq<Version>)
    requires ReadHolds(c, s, rd) && IsMaximalList(Found(rd.responses), m)
    ensures forall v | v in m :: InLog(c, s.log, v)
  {
    forall v | v in m ensures InLog(c, s.log, v) { FoundIff(rd.responses, v); }
  }

  lemma PeerUnique(rs: seq<Resp>, a: Resp, b: Resp)
    requires Distinct(Peers(rs)) && a in rs && b in rs && a.peer == b.peer
    ensures a == b
  {
    var i :| 0 <= i < |rs| && rs[i] == a;
    var j :| 0 <= j < |rs| && rs[j] == b;
    assert Peers(rs)[i] == Peers(rs)[j];
  }

  /** A guarded local repair does not take the reader's copy back, and changes nothing at the primary. */
  lemma LocalRepairAdvances(c: Config, s: State, rd: Read, m: seq<Version>)
    requires StoresOk(c, s) && ReadHolds(c, s, rd) && IsMaximalList(Found(rd.responses), m)
    requires |m| == 1 && rd.reader in s.stores && Replicated(s.stores[rd.reader], m[0]) == m[0]
    ensures InLog(c, s.log, m[0]) && Level(c, s.stores[rd.reader]) <= Seen(c, m[0])
    ensures rd.reader == c.primary ==> s.stores[rd.reader] == Some(m[0])
  {
    ResultInLog(c, s, rd, m);
    assert m[0] in m;
    ReplicatedLevel(c, s.log, s.stores[rd.reader], m[0]);
    if rd.reader == c.primary { LogChain(c, s.log, m[0], s.stores[rd.reader].value); }
  }

  lemma EndReadGrows(c: Config, s: State, id: nat, m: seq<Version>)
    requires Sound(c) && StoresOk(c, s) && ReadsOk(c, s)
    requires Enabled(c, s, EndRead(id, m)) && RepairsForward(s, EndRead(id, m))
    ensures CopiesOk(c, DoEnd(s, id, s.gets[id], m)) && Grows(c, s, DoEnd(s, id, s.gets[id], m))
  {
    hide IsMaximalList, ReadHolds, MessagesOk, CopiesOk, Grows;
    var rd := s.gets[id];
    var t := DoEnd(s, id, rd, m);
    assert ReadHolds(c, s, rd);
    if RepairsItself(rd, m) {
      LocalRepairAdvances(c, s, rd, m);
      OverwriteGrows(c, s, t, rd.reader, m[0]);
    } else {
      SameGrows(c, s, t);
    }
  }

  lemma SameGrows(c: Config, s: State, t: State)
    requires CopiesOk(c, s) && t.stores == s.stores && t.log == s.log && t.puts == s.puts
    ensures CopiesOk(c, t) && Grows(c, s, t)
  {
  }

  /** Overwriting one copy by a write at least as new, harmless at the primary. */
  lemma OverwriteGrows(c: Config, s: State, t: State, n: Node, v: Version)
    requires CopiesOk(c, s) && n in s.stores && InLog(c, s.log, v) && Level(c, s.stores[n]) <= Seen(c, v)
    requires n == c.primary ==> s.stores[n] == Some(v)
    requires t.stores == s.stores[n := Some(v)] && t.log == s.log && t.puts == s.puts
    ensures CopiesOk(c, t) && Grows(c, s, t)
  {
  }

  lemma EndReadMessages(c: Config, s: State, id: nat, m: seq<Version>)
    requires Sound(c) && StoresOk(c, s) && ReadsOk(c, s)
    requires Enabled(c, s, EndRead(id, m)) && RepairsForward(s, EndRead(id, m))
    ensures MessagesOk(c, DoEnd(s, id, s.gets[id], m))
  {
    var rd := s.gets[id];
    var t := DoEnd(s, id, rd, m);
    assert ReadHolds(c, s, rd);
    EndReadGrows(c, s, id, m);
    ResultInLog(c, s, rd, m);
    forall p | p in t.sent - s.sent ensures p.0 in c.owners && InLog(c, t.log, p.1) {
      RepairsAreStale(rd.responses, m, p);
      assert m[0] in m;
    }
    forall k | k in t.returned - s.returned ensures k.Keys <= {c.primary} && Count(k, c.primary) <= |t.log| {
      var x :| x in m && k == x.clock;
      LogChain(c, s.log, x, x);
    }
    MessagesStay(c, s, t);
  }

  // -------------------------------------------------------------------------
  // Writes and reads keep their meaning
  // -------------------------------------------------------------------------

  lemma WriteStays(c: Config, s: State, t: State, wr: Write)
    requires WriteHolds(c, s, wr) && Grows(c, s, t)
    ensures WriteHolds(c, t, wr)
  {
  }

  lemma AckHolds(c: Config, s: State, id: nat, n: Node)
    requires StoresOk(c, s) && id in s.puts && WriteHolds(c, s, s.puts[id])
    requires (n, s.puts[id].version) in s.applied
    ensures WriteHolds(c, s, s.puts[id].(acks := s.puts[id].acks + {n}))
  {
    var wr := s.puts[id];
    SubsetSize(wr.acks, wr.acks + {n});
    assert Level(c, s.stores[(n, wr.version).0]) >= Seen(c, wr.version);
  }

  /** Copies advanced and at most the write `id` changed, to one that holds. */
  lemma WritesStay(c: Config, s: State, t: State, id: nat)
    requires WritesOk(c, s) && Grows(c, s, t)
    requires forall j | j in t.puts && j != id :: j in s.puts && t.puts[j] == s.puts[j]
    requires id in t.puts ==> WriteHolds(c, t, t.puts[id])
    ensures WritesOk(c, t)
  {
    forall j | j in t.puts ensures WriteHolds(c, t, t.puts[j]) {
      if j != id { WriteStays(c, s, t, s.puts[j]); }
    }
  }

  /** Copies advanced and at most the read `id` changed, to one that holds. */
  lemma ReadsStay(c: Config, s: State, t: State, id: nat)
    requires ReadsOk(c, s) && Grows(c, s, t)
    requires forall j | j in t.gets && j != id :: j in s.gets && t.gets[j] == s.gets[j]
    requires id in t.gets ==> ReadHolds(c, t, t.gets[id])
    ensures ReadsOk(c, t)
  {
    forall j | j in t.gets ensures ReadHolds(c, t, t.gets[j]) {
      if j != id { ReadStays(c, s, t, s.gets[j]); }
    }
  }

  lemma AllReadsStay(c: Config, s: State, t: State)
    requires ReadsOk(c, s) && Grows(c, s, t) && t.gets == s.gets
    ensures ReadsOk(c, t)
  {
    forall j | j in t.gets ensures ReadHolds(c, t, t.gets[j]) { ReadStays(c, s, t, s.gets[j]); }
  }

  lemma AllWritesStay(c: Config, s: State, t: State)
    requires WritesOk(c, s) && Grows(c, s, t) && t.puts == s.puts
    ensures WritesOk(c, t)
  {
    forall j | j in t.puts ensures WriteHolds(c, t, t.puts[j]) { WriteStays(c, s, t, s.puts[j]); }
  }

  lemma CopiesSame(c: Config, s: State, t: State)
    requires CopiesOk(c, s) && t.stores == s.stores && t.log == s.log
    ensures CopiesOk(c, t)
  {
  }

  /** Only the bookkeeping of one write changed. */
  lemma WriteUpdateStays(c: Config, s: State, t: State, id: nat)
    requires WritesOk(c, s) && ReadsOk(c, s) && id in s.puts && id in t.puts
    requires t.stores == s.stores && t.log == s.log && t.gets == s.gets && t.puts == s.puts[id := t.puts[id]]
    requires t.puts[id].version == s.puts[id].version && s.puts[id].acks <= t.puts[id].acks
    requires WriteHolds(c, s, t.puts[id])
    ensures Grows(c, s, t) && WritesOk(c, t) && ReadsOk(c, t)
  {
    WriteStays(c, s, t, t.puts[id]);
    WritesStay(c, s, t, id);
    AllReadsStay(c, s, t);
  }

  lemma ReadStays(c: Config, s: State, t: State, rd: Read)
    requires ReadHolds(c, s, rd) && Grows(c, s, t)
    ensures ReadHolds(c, t, rd)
  {
    forall w | w in rd.earlier ensures EarlierHolds(c, t, rd, w) {
      assert EarlierHolds(c, s, rd, w);
    }
  }

  /** The responder's answer covers every earlier write it had acknowledged. */
  lemma ReplyHolds(c: Config, s: State, rd: Read, n: Node)
    requires StoresOk(c, s) && WritesOk(c, s) && ReadHolds(c, s, rd)
    requires n in s.stores && n !in Peers(rd.responses) && rd.result.None?
    ensures ReadHolds(c, s, rd.(responses := rd.responses + [Resp(n, s.stores[n])]))
  {
    var rd' := rd.(responses := rd.responses + [Resp(n, s.stores[n])]);
    assert Peers(rd'.responses) == Peers(rd.responses) + [n];
    DistinctAppend(Peers(rd.responses), n);
    forall w | w in rd'.earlier ensures EarlierHolds(c, s, rd', w) { ReplyCovers(c, s, rd, n, w); }
  }

  lemma ReplyCovers(c: Config, s: State, rd: Read, n: Node, w: nat)
    requires WritesOk(c, s) && n in s.stores && EarlierHolds(c, s, rd, w)
    ensures EarlierHolds(c, s, rd.(responses := rd.responses + [Resp(n, s.stores[n])]), w)
  {
    assert WriteHolds(c, s, s.puts[w]);
  }

  lemma StartHolds(c: Config, s: State, id: nat, reader: Node)
    requires StoresOk(c, s) && WritesOk(c, s)
    ensures ReadHolds(c, DoStart(s, id, reader), DoStart(s, id, reader).gets[id])
  {
    var t := DoStart(s, id, reader);
    var rd := t.gets[id];
    forall w | w in rd.earlier ensures EarlierHolds(c, t, rd, w) {
      assert WriteHolds(c, s, s.puts[w]);
    }
  }

  // -------------------------------------------------------------------------
  // The quorums meet
  // -------------------------------------------------------------------------

  lemma QuorumsMeet(owners: set<Node>, acks: set<Node>, rs: seq<Resp>, w: nat, r: nat)
    requires w + r > |owners| && acks <= owners && |acks| >= w
    requires |rs| >= r && Distinct(Peers(rs)) && forall x | x in rs :: x.peer in owners
    ensures exists x :: x in rs && x.peer in acks
  {
    var ps := Elements(Peers(rs));
    DistinctSize(Peers(rs));
    assert ps <= owners;
    if ps * acks == {} {
      SubsetSize(ps + acks, owners);
      assert false;
    }
    var p :| p in ps * acks;
    var i :| 0 <= i < |rs| && Peers(rs)[i] == p;
    assert rs[i] in rs && rs[i].peer in acks;
  }

  /** A read that met its quorum sees every write acknowledged before it, and never siblings. */
  lemma ReadIsSafe(c: Config, s: State, rd: Read, m: seq<Version>)
    requires Sound(c) && StoresOk(c, s) && WritesOk(c, s) && ReadHolds(c, s, rd)
    requires |rd.responses| >= c.r && IsMaximalList(Found(rd.responses), m)
    ensures SafeResult(c, s, rd.(result := Some(m)))
  {
    ResultInLog(c, s, rd, m);
    MaximalAreConcurrent(Found(rd.responses), m);
    if |m| > 1 {
      assert m[0] in m && m[1] in m;
      LogChain(c, s.log, m[0], m[1]);
      assert false;
    }
    forall w | w in rd.earlier ensures w in s.puts && |m| == 1 && NewerOrSame(m[0], s.puts[w].version) {
      SeesWrite(c, s, rd, m, w);
    }
  }

  /** Some responder had acknowledged the earlier write, so it answered with that write or a later one. */
  lemma EarlierResponder(c: Config, s: State, rd: Read, w: nat) returns (u: Version)
    requires Sound(c) && StoresOk(c, s) && WritesOk(c, s) && ReadHolds(c, s, rd) && w in rd.earlier
    requires |rd.responses| >= c.r
    ensures u in Found(rd.responses) && InLog(c, s.log, u)
    ensures w in s.puts && InLog(c, s.log, s.puts[w].version) && Seen(c, u) >= Seen(c, s.puts[w].version)
  {
    assert EarlierHolds(c, s, rd, w) && WriteHolds(c, s, s.puts[w]);
    QuorumsMeet(c.owners, rd.earlier[w], rd.responses, c.w, c.r);
    var r :| r in rd.responses && r.peer in rd.earlier[w];
    u := r.found.value;
    FoundIff(rd.responses, u);
  }

  lemma SeesWrite(c: Config, s: State, rd: Read, m: seq<Version>, w: nat)
    requires Sound(c) && StoresOk(c, s) && WritesOk(c, s) && ReadHolds(c, s, rd) && w in rd.earlier
    requires |rd.responses| >= c.r && IsMaximalList(Found(rd.responses), m) && |m| <= 1
    ensures w in s.puts && |m| == 1 && NewerOrSame(m[0], s.puts[w].version)
  {
    var u := EarlierResponder(c, s, rd, w);
    MaximalCovers(Found(rd.responses), m, u);
    ResultInLog(c, s, rd, m);
    LogChain(c, s.log, u, m[0]);
    LogChain(c, s.log, s.puts[w].version, m[0]);
  }

  lemma EndHolds(c: Config, s: State, id: nat, m: seq<Version>)
    requires Sound(c) && Inv(c, s) && Enabled(c, s, EndRead(id, m))
    ensures ReadHolds(c, s, s.gets[id].(result := Some(m)))
  {
    var rd := s.gets[id];
    var rd' := rd.(result := Some(m));
    assert ReadHolds(c, s, rd);
    ReadIsSafe(c, s, rd, m);
    forall w | w in rd'.earlier ensures EarlierHolds(c, s, rd', w) {
      assert EarlierHolds(c, s, rd, w);
    }
  }

  // -------------------------------------------------------------------------
  // Every step keeps the invariant
  // -------------------------------------------------------------------------

  lemma PutStep(c: Config, s: State, a: Action)
    requires Sound(c) && Inv(c, s) && a.Put? && Enabled(c, s, a)
    ensures Inv(c, DoPut(c, s, a.id, PutVersion(c, s, a)))
  {
    PutAppends(c, s, a);
    PutKeeps(c, s, a.id, PutVersion(c, s, a));
  }

  lemma PutKeeps(c: Config, s: State, id: nat, v: Version)
    requires Sound(c) && Inv(c, s) && LogOk(c, s.log + [v]) && Seen(c, v) == |s.log| + 1 && id !in s.puts
    ensures Inv(c, DoPut(c, s, id, v))
  {
    var t := DoPut(c, s, id, v);
    PutGrows(c, s, id, v);
    MessagesStay(c, s, t);
    WritesStay(c, s, t, id);
    AllReadsStay(c, s, t);
  }

  lemma DeliverStep(c: Config, s: State, n: Node, v: Version)
    requires Sound(c) && Inv(c, s) && (n, v) in s.sent && n in s.stores
    ensures Inv(c, DoDeliver(s, n, v))
  {
    var t := DoDeliver(s, n, v);
    assert InLog(c, s.log, (n, v).1);
    DeliverGrows(c, s, n, v);
    MessagesStay(c, s, t);
    AllWritesStay(c, s, t);
    AllReadsStay(c, s, t);
  }

  lemma AckStep(c: Config, s: State, id: nat, n: Node)
    requires Sound(c) && Inv(c, s) && id in s.puts && (n, s.puts[id].version) in s.applied
    ensures Inv(c, DoAck(s, id, n))
  {
    var t := DoAck(s, id, n);
    assert WriteHolds(c, s, s.puts[id]);
    AckHolds(c, s, id, n);
    WriteUpdateStays(c, s, t, id);
    CopiesSame(c, s, t);
    MessagesStay(c, s, t);
  }

  lemma WriteOkStep(c: Config, s: State, id: nat)
    requires Sound(c) && Inv(c, s) && id in s.puts && |s.puts[id].acks| >= c.w
    ensures Inv(c, DoWriteOk(s, id))
  {
    hide WriteHolds, ReadHolds;
    var t := DoWriteOk(s, id);
    OkHolds(c, s, s.puts[id]);
    WriteUpdateStays(c, s, t, id);
    CopiesSame(c, s, t);
    MessagesStay(c, s, t);
  }

  lemma OkHolds(c: Config, s: State, wr: Write)
    requires CopiesOk(c, s) && WriteHolds(c, s, wr) && |wr.acks| >= c.w
    ensures WriteHolds(c, s, wr.(done := true))
    ensures wr.version.clock.Keys <= {c.primary} && Seen(c, wr.version) <= |s.log|
  {
    LogChain(c, s.log, wr.version, wr.version);
  }

  lemma StartStep(c: Config, s: State, id: nat, reader: Node)
    requires Sound(c) && Inv(c, s) && id !in s.gets
    ensures Inv(c, DoStart(s, id, reader))
  {
    var t := DoStart(s, id, reader);
    StartHolds(c, s, id, reader);
    ReadsStay(c, s, t, id);
    AllWritesStay(c, s, t);
  }

  lemma ReplyStep(c: Config, s: State, id: nat, n: Node)
    requires Sound(c) && Inv(c, s) && Enabled(c, s, Reply(id, n))
    ensures Inv(c, DoReply(s, id, n))
  {
    hide ReadHolds, WriteHolds, IsMaximalList;
    var t := DoReply(s, id, n);
    assert ReadHolds(c, s, s.gets[id]);
    ReplyHolds(c, s, s.gets[id], n);
    ReadStays(c, s, t, t.gets[id]);
    ReadsStay(c, s, t, id);
    AllWritesStay(c, s, t);
  }

  lemma EndStep(c: Config, s: State, id: nat, m: seq<Version>)
    requires Sound(c) && Inv(c, s) && Enabled(c, s, EndRead(id, m)) && RepairsForward(s, EndRead(id, m))
    ensures Inv(c, DoEnd(s, id, s.gets[id], m))
  {
    hide WriteHolds, ReadHolds, IsMaximalList, CopiesOk, MessagesOk;
    var t := DoEnd(s, id, s.gets[id], m);
    EndReadGrows(c, s, id, m);
    EndReadMessages(c, s, id, m);
    EndHolds(c, s, id, m);
    ReadStays(c, s, t, t.gets[id]);
    ReadsStay(c, s, t, id);
    AllWritesStay(c, s, t);
  }

  lemma StepKeepsInvariant(c: Config, s: State, a: Action)
    requires Sound(c) && Inv(c, s) && Enabled(c, s, a) && RepairsForward(s, a)
    ensures Inv(c, Next(c, s, a))
  {
    match a
    case Put(_, _, _, _, _) => PutStep(c, s, a);
    case Deliver(n, v) => DeliverStep(c, s, n, v);
    case Ack(id, n) => AckStep(c, s, id, n);
    case WriteOk(id) => WriteOkStep(c, s, id);
    case StartRead(id, reader) => StartStep(c, s, id, reader);
    case Reply(id, n) => ReplyStep(c, s, id, n);
    case EndRead(id, m) => EndStep(c, s, id, m);
  }

  // -------------------------------------------------------------------------
  // Every run
  // -------------------------------------------------------------------------

  /** The state after the actions have been tried in order; one that is not enabled does nothing. */
  ghost function After(c: Config, acts: seq<Action>): State {
    if acts == [] then Initial(c)
    else
      var s, a := After(c, acts[..|acts| - 1]), acts[|acts| - 1];
      if c.primary in s.stores && Enabled(c, s, a) then Next(c, s, a) else s
  }

  /** The i-th action took effect. */
  ghost predicate Took(c: Config, acts: seq<Action>, i: nat)
    requires i < |acts|
  {
    c.primary in After(c, acts[..i]).stores && Enabled(c, After(c, acts[..i]), acts[i])
  }

  ghost predicate Guarded(c: Config, acts: seq<Action>) {
    forall i | 0 <= i < |acts| && Took(c, acts, i) :: RepairsForward(After(c, acts[..i]), acts[i])
  }

  lemma GuardedInit(c: Config, acts: seq<Action>)
    requires acts != [] && Guarded(c, acts)
    ensures Guarded(c, acts[..|acts| - 1])
  {
    var init := acts[..|acts| - 1];
    forall i | 0 <= i < |init| && Took(c, init, i) ensures RepairsForward(After(c, init[..i]), init[i]) {
      assert init[..i] == acts[..i] && Took(c, acts, i);
    }
  }

  lemma {:induction false} RunInvariant(c: Config, acts: seq<Action>)
    requires Sound(c) && Guarded(c, acts)
    ensures Inv(c, After(c, acts))
    decreases |acts|
  {
    if acts == [] {
      assert Inv(c, Initial(c));
    } else {
      var init := acts[..|acts| - 1];
      GuardedInit(c, acts);
      RunInvariant(c, init);
      var s, a := After(c, init), acts[|acts| - 1];
      if Enabled(c, s, a) {
        assert Took(c, acts, |acts| - 1);
        StepKeepsInvariant(c, s, a);
      }
    }
  }

  /**
   Quorum register safety.  After every run, all copies are causally ordered, and
   every finished read returned no siblings and, if any write had been acknowledged
   before it started, exactly one version: that write or one dominating it.
   */
  lemma RegisterSafety(c: Config, acts: seq<Action>)
    requires Sound(c) && Guarded(c, acts)
    ensures
      var s := After(c, acts);
      forall n, o | n in s.stores && o in s.stores && s.stores[n].Some? && s.stores[o].Some? ::
        Comparable(s.stores[n].value.clock, s.stores[o].value.clock)
    ensures
      var s := After(c, acts);
      forall id | id in s.gets && s.gets[id].result.Some? :: SafeResult(c, s, s.gets[id])
  {
    RunInvariant(c, acts);
    var s := After(c, acts);
    forall n, o | n in s.stores && o in s.stores && s.stores[n].Some? && s.stores[o].Some?
      ensures Comparable(s.stores[n].value.clock, s.stores[o].value.clock)
    {
      LogChain(c, s.log, s.stores[n].value, s.stores[o].value);
    }
    forall id | id in s.gets && s.gets[id].result.Some? ensures SafeResult(c, s, s.gets[id]) {
      assert ReadHolds(c, s, s.gets[id]);
    }
  }

  /** The guard holds in particular when nothing has landed on the reader's copy since it read it. */
  lemma UndisturbedIsForward(c: Config, s: State, id: nat, m: seq<Version>)
    requires StoresOk(c, s) && ReadsOk(c, s) && Enabled(c, s, EndRead(id, m))
    requires s.gets[id].reader in s.stores &&
             Resp(s.gets[id].reader, s.stores[s.gets[id].reader]) in s.gets[id].responses
    ensures RepairsForward(s, EndRead(id, m))
  {
    var rd := s.gets[id];
    assert ReadHolds(c, s, rd);
    if v :| (rd.reader, v) in Repairs(rd.responses, m) {
      RepairsAreStale(rd.responses, m, (rd.reader, v));
      var r :| r in rd.responses && r.peer == rd.reader && Stale(r, m[0]);
      PeerUnique(rd.responses, r, Resp(rd.reader, s.stores[rd.reader]));
    }
  }

  /** The guard is exact: without it, and only then, ending a read takes a copy back. */
  lemma UnguardedRepairRegressesIff(c: Config, s: State, id: nat, m: seq<Version>)
    requires Sound(c) && Inv(c, s) && Enabled(c, s, EndRead(id, m)) && s.gets[id].reader in s.stores
    ensures RepairsForward(s, EndRead(id, m)) <==>
            forall n | n in s.stores :: Level(c, s.stores[n]) <= Level(c, DoEnd(s, id, s.gets[id], m).stores[n])
  {
    hide IsMaximalList, ReadHolds, MessagesOk, WriteHolds;
    var rd := s.gets[id];
    assert ReadHolds(c, s, rd);
    if v :| (rd.reader, v) in Repairs(rd.responses, m) {
      RepairsAreStale(rd.responses, m, (rd.reader, v));
      ResultInLog(c, s, rd, m);
      assert m[0] in m;
      OverwriteForwardIff(c, s, rd.reader, m[0]);
    }
  }

  lemma OverwriteForwardIff(c: Config, s: State, n: Node, v: Version)
    requires CopiesOk(c, s) && n in s.stores && InLog(c, s.log, v)
    ensures Replicated(s.stores[n], v) == v <==> Level(c, s.stores[n]) <= Seen(c, v)
  {
    ReplicatedLevel(c, s.log, s.stores[n], v);
    if s.stores[n].Some? { LogChain(c, s.log, s.stores[n].value, v); }
  }

  // -------------------------------------------------------------------------
  // What a client sees of a run
  // -------------------------------------------------------------------------

  /** From `s` to `t` no write was withdrawn or changed and no read forgot what it knew. */
  ghost predicate Remembers(s: State, t: State) {
    && (forall w | w in s.puts ::
          w in t.puts && t.puts[w].version == s.puts[w].version && (s.puts[w].done ==> t.puts[w].done))
    && (forall id | id in s.gets ::
          id in t.gets && t.gets[id].reader == s.gets[id].reader && t.gets[id].earlier == s.gets[id].earlier
          && s.gets[id].responses <= t.gets[id].responses)
  }

  lemma StepRemembers(c: Config, s: State, a: Action)
    requires c.primary in s.stores && Enabled(c, s, a)
    ensures Remembers(s, Next(c, s, a))
  {
    hide IsMaximalList, Repairs, Bumped;
  }

  lemma {:induction false} RunRemembers(c: Config, acts: seq<Action>, i: nat)
    requires i <= |acts|
    ensures Remembers(After(c, acts[..i]), After(c, acts))
    decreases |acts|
  {
    hide Enabled, Next;
    if i == |acts| {
      assert acts[..i] == acts;
    } else {
      var init := acts[..|acts| - 1];
      assert init[..i] == acts[..i];
      RunRemembers(c, init, i);
      var s, a := After(c, init), acts[|acts| - 1];
      if c.primary in s.stores && Enabled(c, s, a) { StepRemembers(c, s, a); }
    }
  }

  lemma TookNext(c: Config, acts: seq<Action>, i: nat)
    requires i < |acts| && Took(c, acts, i)
    ensures After(c, acts[..i + 1]) == Next(c, After(c, acts[..i]), acts[i])
  {
    assert acts[..i + 1][..i] == acts[..i];
  }

  /** A write acknowledged before a read starts is among those the read must see. */
  lemma AcknowledgedIsEarlier(c: Config, acts: seq<Action>, i: nat, j: nat)
    requires i < j < |acts| && acts[i].WriteOk? && Took(c, acts, i) && acts[j].StartRead? && Took(c, acts, j)
    ensures
      var s, w, id := After(c, acts), acts[i].id, acts[j].id;
      && w in After(c, acts[..i]).puts && w in s.puts && s.puts[w].version == After(c, acts[..i]).puts[w].version
      && id in s.gets && w in s.gets[id].earlier
  {
    hide After, Remembers;
    TookNext(c, acts, i);
    TookNext(c, acts, j);
    RunRemembers(c, acts[..j], i + 1);
    assert acts[..j][..i + 1] == acts[..i + 1];
    RunRemembers(c, acts, j + 1);
    Remembered(After(c, acts[..i + 1]), After(c, acts[..j]), acts[i].id, acts[j].id);
    Remembered(After(c, acts[..j + 1]), After(c, acts), acts[i].id, acts[j].id);
  }

  lemma Remembered(s: State, t: State, w: nat, id: nat)
    requires Remembers(s, t)
    ensures w in s.puts ==> w in t.puts && t.puts[w].version == s.puts[w].version && (s.puts[w].done ==> t.puts[w].done)
    ensures id in s.gets ==> id in t.gets && t.gets[id].earlier == s.gets[id].earlier
  {
  }

  /**
   The register as a client sees it: when a write is acknowledged at one point of a
   run and a read starts at a later one, the read, once finished, has returned
   exactly one version: that write, or one dominating it.
   */
  lemma ReadSeesAcknowledged(c: Config, acts: seq<Action>, i: nat, j: nat)
    requires Sound(c) && Guarded(c, acts)
    requires i < j < |acts| && acts[i].WriteOk? && Took(c, acts, i) && acts[j].StartRead? && Took(c, acts, j)
    ensures
      var s, before, w, id := After(c, acts), After(c, acts[..i]), acts[i].id, acts[j].id;
      && w in before.puts && id in s.gets
      && (s.gets[id].result.Some? ==>
            |s.gets[id].result.value| == 1 && NewerOrSame(s.gets[id].result.value[0], before.puts[w].version))
  {
    hide After, Took, Guarded;
    AcknowledgedIsEarlier(c, acts, i, j);
    RegisterSafety(c, acts);
  }

  /** Whenever a read ends, its reader's own copy is what it was when the read started. */
  ghost predicate Undisturbed(c: Config, acts: seq<Action>) {
    forall i, j | 0 <= i < j < |acts| && Starts(c, acts, i, j) ::
      Copy(After(c, acts[..j]), acts[i].reader) == Copy(After(c, acts[..i]), acts[i].reader)
  }

  /** The read that ends at `j` started at `i`. */
  ghost predicate Starts(c: Config, acts: seq<Action>, i: nat, j: nat)
    requires i < j < |acts|
  {
    acts[i].StartRead? && Took(c, acts, i) && acts[j].EndRead? && Took(c, acts, j) && acts[i].id == acts[j].id
  }

  /** The node's copy; None too for a node that is no owner. */
  function Copy(s: State, n: Node): Option<Version> { if n in s.stores then s.stores[n] else None }

  /** A read under way was started by someone, and still has the reader's own answer. */
  lemma {:induction false} ReadStarted(c: Config, acts: seq<Action>, id: nat) returns (i: nat)
    requires id in After(c, acts).gets
    ensures i < |acts| && acts[i].StartRead? && acts[i].id == id && Took(c, acts, i)
    ensures
      var s, rd := After(c, acts[..i]), After(c, acts).gets[id];
      rd.reader == acts[i].reader && (rd.reader in s.stores ==> Resp(rd.reader, s.stores[rd.reader]) in rd.responses)
    decreases |acts|
  {
    hide Enabled;
    var n := |acts| - 1;
    var init := acts[..n];
    if id in After(c, init).gets {
      i := ReadStarted(c, init, id);
      assert init[..i] == acts[..i];
      RunRemembers(c, acts, n);
      ResponsesGrow(After(c, init), After(c, acts), id);
    } else {
      i := n;
      NewRead(c, After(c, init), acts[n], id);
    }
  }

  lemma ResponsesGrow(s: State, t: State, id: nat)
    requires Remembers(s, t) && id in s.gets
    ensures id in t.gets && t.gets[id].reader == s.gets[id].reader
    ensures forall r | r in s.gets[id].responses :: r in t.gets[id].responses
  {
  }

  lemma NewRead(c: Config, s: State, a: Action, id: nat)
    requires c.primary in s.stores && Enabled(c, s, a) && id !in s.gets && id in Next(c, s, a).gets
    ensures
      var rd := Next(c, s, a).gets[id];
      && a.StartRead? && a.id == id && rd.reader == a.reader
      && (rd.reader in s.stores ==> Resp(rd.reader, s.stores[rd.reader]) in rd.responses)
  {
    hide IsMaximalList, Repairs;
  }

  /** If nothing lands on a reader's copy between its local read and its local repair, every repair is forward. */
  lemma {:induction false} UndisturbedIsGuarded(c: Config, acts: seq<Action>)
    requires Sound(c) && Undisturbed(c, acts)
    ensures Guarded(c, acts)
    decreases |acts|
  {
    hide After, Took, RepairsForward;
    if acts != [] {
      var n := |acts| - 1;
      var init := acts[..n];
      UndisturbedInit(c, acts);
      UndisturbedIsGuarded(c, init);
      RunInvariant(c, init);
      if Took(c, acts, n) { LastIsForward(c, acts); }
      forall i | 0 <= i < |acts| && Took(c, acts, i) ensures RepairsForward(After(c, acts[..i]), acts[i]) {
        if i < n { TookInit(c, acts, i); }
      }
    }
  }

  lemma TookInit(c: Config, acts: seq<Action>, i: nat)
    requires i < |acts| - 1
    ensures acts[..|acts| - 1][..i] == acts[..i] && (Took(c, acts, i) <==> Took(c, acts[..|acts| - 1], i))
  {
    assert acts[..|acts| - 1][..i] == acts[..i];
  }

  lemma UndisturbedInit(c: Config, acts: seq<Action>)
    requires acts != [] && Undisturbed(c, acts)
    ensures Undisturbed(c, acts[..|acts| - 1])
  {
    hide After, Took;
    var init := acts[..|acts| - 1];
    forall i, j | 0 <= i < j < |init| && Starts(c, init, i, j)
      ensures Copy(After(c, init[..j]), init[i].reader) == Copy(After(c, init[..i]), init[i].reader)
    {
      TookInit(c, acts, i);
      TookInit(c, acts, j);
      assert Starts(c, acts, i, j);
    }
  }

  lemma LastIsForward(c: Config, acts: seq<Action>)
    requires acts != [] && Sound(c) && Undisturbed(c, acts) && Took(c, acts, |acts| - 1)
    requires Inv(c, After(c, acts[..|acts| - 1]))
    ensures RepairsForward(After(c, acts[..|acts| - 1]), acts[|acts| - 1])
  {
    hide After, ReadHolds, MessagesOk, IsMaximalList;
    var n := |acts| - 1;
    var s, a := After(c, acts[..n]), acts[n];
    if a.EndRead? {
      var i := ReadStarted(c, acts[..n], a.id);
      assert acts[..n][..i] == acts[..i];
      assert Starts(c, acts, i, n);
      if a.EndRead? && s.gets[a.id].reader in s.stores {
        StoresFixed(c, acts[..n]);
        StoresFixed(c, acts[..i]);
        UndisturbedIsForward(c, s, a.id, a.m);
      } else {
        OutsiderRepairsNothing(c, s, a.id, a.m);
      }
    }
  }

  lemma OutsiderRepairsNothing(c: Config, s: State, id: nat, m: seq<Version>)
    requires CopiesOk(c, s) && ReadsOk(c, s) && id in s.gets && s.gets[id].reader !in s.stores
    ensures !RepairsItself(s.gets[id], m)
  {
    var rd := s.gets[id];
    assert ReadHolds(c, s, rd);
    if v :| (rd.reader, v) in Repairs(rd.responses, m) { RepairsAreStale(rd.responses, m, (rd.reader, v)); }
  }

  lemma StepKeepsOwners(c: Config, s: State, a: Action)
    requires c.primary in s.stores && Enabled(c, s, a)
    ensures Next(c, s, a).stores.Keys == s.stores.Keys
  {
    hide IsMaximalList, Repairs, Bumped, Replicated;
  }

  lemma {:induction false} StoresFixed(c: Config, acts: seq<Action>)
    ensures After(c, acts).stores.Keys == c.owners
    decreases |acts|
  {
    hide Enabled, Next;
    if acts != [] {
      var s, a := After(c, acts[..|acts| - 1]), acts[|acts| - 1];
      StoresFixed(c, acts[..|acts| - 1]);
      if c.primary in s.stores && Enabled(c, s, a) { StepKeepsOwners(c, s, a); }
    }
  }

  /** Hence every such run is safe, as a client sees it. */
  lemma UndisturbedRunIsSafe(c: Config, acts: seq<Action>, i: nat, j: nat)
    requires Sound(c) && Undisturbed(c, acts)
    requires i < j < |acts| && acts[i].WriteOk? && Took(c, acts, i) && acts[j].StartRead? && Took(c, acts, j)
    ensures
      var s, before, w, id := After(c, acts), After(c, acts[..i]), acts[i].id, acts[j].id;
      && w in before.puts && id in s.gets
      && (s.gets[id].result.Some? ==>
            |s.gets[id].result.value| == 1 && NewerOrSame(s.gets[id].result.value[0], before.puts[w].version))
  {
    hide After, Took, Guarded, Undisturbed;
    UndisturbedIsGuarded(c, acts);
    ReadSeesAcknowledged(c, acts, i, j);
  }

  // -------------------------------------------------------------------------
  // A run that needs the guard
  // -------------------------------------------------------------------------

  ghost predicate Reachable(c: Config, s: State) {
    exists acts :: After(c, acts) == s
  }

  lemma ReachNext(c: Config, s: State, a: Action)
    requires Reachable(c, s) && c.primary in s.stores && Enabled(c, s, a)
    ensures Reachable(c, Next(c, s, a))
  {
    var acts :| After(c, acts) == s;
    assert (acts + [a])[..|acts|] == acts;
    assert After(c, acts + [a]) == Next(c, s, a);
  }

  /** Three owners and the primary first, W = R = 2. */
  ghost predicate Trio(c: Config, p: Node, q: Node, r: Node) {
    p != q && q != r && p != r && c == Config({p, q, r}, p, 2, 2, 1)
  }

  /** The i-th write of the scenario. */
  function Nth(p: Node, i: nat): Version { Version([], map[p := Entry(i, 0)], false) }

  ghost predicate Holds(s: State, n: Node, o: Option<Version>) {
    n in s.stores && s.stores[n] == o
  }

  lemma BlindBump(p: Node, i: nat, stored: Option<Version>)
    requires stored == if i == 0 then None else Some(Nth(p, i))
    ensures Bumped(map[], LocalClock(stored), p, 0, 1) == Nth(p, i + 1).clock
  {
    var raised := Raised(map[], LocalClock(stored), p, 0);
    assert raised == map[p := Entry(i + 1, 0)];
    assert |raised| == |raised.Keys| == 1;
  }

  /** A blind put by the primary holding write `i` (none for 0) is write `i + 1`, sent to everyone else. */
  lemma BlindPut(c: Config, s: State, i: nat, v: Version) returns (t: State)
    requires Reachable(c, s) && c.k == 1 && i !in s.puts && v == Nth(c.primary, i + 1)
    requires Holds(s, c.primary, if i == 0 then None else Some(Nth(c.primary, i)))
    ensures Reachable(c, t) && t == DoPut(c, s, i, v)
  {
    var a := Put(i, [], false, map[], 0);
    BlindBump(c.primary, i, s.stores[c.primary]);
    assert PutVersion(c, s, a) == v;
    ReachNext(c, s, a);
    t := DoPut(c, s, i, v);
  }

  /** Write 1 reaches r. */
  lemma ScenarioWrite(c: Config, p: Node, q: Node, r: Node) returns (s: State)
    requires Trio(c, p, q, r)
    ensures Reachable(c, s) && s.stores.Keys == c.owners
    ensures Holds(s, p, Some(Nth(p, 1))) && Holds(s, q, None) && Holds(s, r, Some(Nth(p, 1)))
    ensures s.gets == map[] && s.puts == map[0 := Write(Nth(p, 1), {p}, false)]
  {
    var s1 := ScenarioPut(c, p, q, r);
    s := DeliverFirst(c, s1, r, Nth(p, 1));
  }

  lemma ScenarioPut(c: Config, p: Node, q: Node, r: Node) returns (s: State)
    requires Trio(c, p, q, r)
    ensures Reachable(c, s) && s.stores.Keys == c.owners
    ensures Holds(s, p, Some(Nth(p, 1))) && Holds(s, q, None) && Holds(s, r, None)
    ensures s.gets == map[] && s.puts == map[0 := Write(Nth(p, 1), {p}, false)] && (r, Nth(p, 1)) in s.sent
  {
    var s0 := Initial(c);
    assert After(c, []) == s0;
    s := BlindPut(c, s0, 0, Nth(p, 1));
  }

  /** A message sent is delivered to a node holding nothing. */
  lemma DeliverFirst(c: Config, s: State, n: Node, v: Version) returns (t: State)
    requires Reachable(c, s) && c.primary in s.stores && (n, v) in s.sent && n in s.stores && s.stores[n] == None
    ensures Reachable(c, t) && t == s.(stores := s.stores[n := Some(v)], applied := s.applied + {(n, v)})
  {
    ReachNext(c, s, Deliver(n, v));
    t := DoDeliver(s, n, v);
  }

  lemma NoneDone(s: State)
    requires forall w | w in s.puts :: !s.puts[w].done
    ensures (map w | w in s.puts && s.puts[w].done :: s.puts[w].acks) == map[]
  {
  }

  /** q starts a read and hears from r. */
  lemma ScenarioRead(c: Config, p: Node, q: Node, r: Node) returns (s: State)
    requires Trio(c, p, q, r)
    ensures Reachable(c, s) && s.stores.Keys == c.owners
    ensures Holds(s, p, Some(Nth(p, 1))) && Holds(s, q, None) && Holds(s, r, Some(Nth(p, 1)))
    ensures s.gets == map[1 := Read(q, map[], [Resp(q, None), Resp(r, Some(Nth(p, 1)))], None)]
    ensures s.puts.Keys == {0}
  {
    var s2 := ScenarioWrite(c, p, q, r);
    ReachNext(c, s2, StartRead(1, q));
    var s3 := DoStart(s2, 1, q);
    NoneDone(s2);
    assert s3.gets[1] == Read(q, map[], [Resp(q, None)], None);
    assert Peers([Resp(q, None)]) == [q];
    ReachNext(c, s3, Reply(1, r));
    s := DoReply(s3, 1, r);
    assert [Resp(q, None)] + [Resp(r, Some(Nth(p, 1)))] == [Resp(q, None), Resp(r, Some(Nth(p, 1)))];
  }

  /** Write 2 lands on q. */
  lemma ScenarioOvertake(c: Config, p: Node, q: Node, r: Node) returns (s: State)
    requires Trio(c, p, q, r)
    ensures Reachable(c, s) && s.stores.Keys == c.owners
    ensures Holds(s, p, Some(Nth(p, 2))) && Holds(s, q, Some(Nth(p, 2))) && Holds(s, r, Some(Nth(p, 1)))
    ensures s.gets == map[1 := Read(q, map[], [Resp(q, None), Resp(r, Some(Nth(p, 1)))], None)]
    ensures 1 in s.puts && s.puts[1] == Write(Nth(p, 2), {p}, false) && (q, Nth(p, 2)) in s.applied
  {
    var s4 := ScenarioRead(c, p, q, r);
    var s5 := BlindPut(c, s4, 1, Nth(p, 2));
    s := DeliverFirst(c, s5, q, Nth(p, 2));
  }

  /** ... and is acknowledged by p and q. */
  lemma ScenarioAck(c: Config, p: Node, q: Node, r: Node) returns (s: State)
    requires Trio(c, p, q, r)
    ensures Reachable(c, s) && s.stores.Keys == c.owners
    ensures Holds(s, p, Some(Nth(p, 2))) && Holds(s, q, Some(Nth(p, 2))) && Holds(s, r, Some(Nth(p, 1)))
    ensures s.gets == map[1 := Read(q, map[], [Resp(q, None), Resp(r, Some(Nth(p, 1)))], None)]
    ensures 1 in s.puts && s.puts[1] == Write(Nth(p, 2), {p, q}, true)
  {
    var s6 := ScenarioOvertake(c, p, q, r);
    ReachNext(c, s6, Ack(1, q));
    var s7 := DoAck(s6, 1, q);
    assert s7.puts[1].acks == {p, q};
    ReachNext(c, s7, WriteOk(1));
    s := DoWriteOk(s7, 1);
  }

  lemma MaximalSingle(v: Version, found: seq<Version>)
    requires found == [v] || found == [v, v]
    ensures IsMaximalList(found, [v])
  {
    assert Order(v.clock, v.clock) == Equal && v in [v];
    assert forall u | u in found :: u == v;
    assert Represented(v, [v]);
  }

  lemma FoundPair(a: Resp, b: Resp)
    ensures Found([a, b]) ==
              (if a.found.Some? then [a.found.value] else []) + if b.found.Some? then [b.found.value] else []
    ensures forall m: seq<Version> | |m| == 1 && a.found.None? :: (a.peer, m[0]) in Repairs([a, b], m)
  {
    assert [a, b][..1] == [a] && [a][..0] == [];
    assert Found([a]) == if a.found.Some? then [a.found.value] else [];
    forall m: seq<Version> | |m| == 1 && a.found.None? ensures (a.peer, m[0]) in Repairs([a, b], m) {
      assert Repairs([a], m) == [(a.peer, m[0])];
    }
  }

  /** q's repair writes the first version back over the second. */
  lemma ScenarioRepair(c: Config, p: Node, q: Node, r: Node) returns (s: State)
    requires Trio(c, p, q, r)
    ensures Reachable(c, s) && s.stores.Keys == c.owners
    ensures Holds(s, q, Some(Nth(p, 1))) && Holds(s, r, Some(Nth(p, 1)))
    ensures s.gets.Keys == {1}
    ensures 1 in s.puts && s.puts[1] == Write(Nth(p, 2), {p, q}, true)
  {
    var m := [Nth(p, 1)];
    var s8 := ScenarioAck(c, p, q, r);
    var rd := s8.gets[1];
    FoundPair(Resp(q, None), Resp(r, Some(Nth(p, 1))));
    MaximalSingle(Nth(p, 1), Found(rd.responses));
    assert RepairsItself(rd, m);
    ReachNext(c, s8, EndRead(1, m));
    s := DoEnd(s8, 1, rd, m);
  }

  /** r reads its own copy and q's. */
  lemma ScenarioSecondRead(c: Config, p: Node, q: Node, r: Node) returns (s: State)
    requires Trio(c, p, q, r)
    ensures Reachable(c, s) && c.primary in s.stores
    ensures 2 in s.gets && s.gets[2].result.None? && 1 in s.gets[2].earlier
    ensures s.gets[2].responses == [Resp(r, Some(Nth(p, 1))), Resp(q, Some(Nth(p, 1)))]
    ensures 1 in s.puts && s.puts[1].version == Nth(p, 2)
  {
    var s9 := ScenarioRepair(c, p, q, r);
    ReachNext(c, s9, StartRead(2, r));
    var s10 := DoStart(s9, 2, r);
    assert s10.gets[2].responses == [Resp(r, Some(Nth(p, 1)))];
    assert Peers(s10.gets[2].responses) == [r];
    ReachNext(c, s10, Reply(2, q));
    s := DoReply(s10, 2, q);
  }

  /** Without the guard the property fails: a later read returns the first write though the second was acknowledged. */
  lemma UnguardedRunLosesAWrite(p: Node, q: Node, r: Node)
    requires p != q && q != r && p != r
    ensures
      var c := Config({p, q, r}, p, 2, 2, 1);
      Sound(c) && exists s :: Reachable(c, s) && 2 in s.gets && s.gets[2].result.Some? && !SafeResult(c, s, s.gets[2])
  {
    var c := Config({p, q, r}, p, 2, 2, 1);
    var m := [Nth(p, 1)];
    var s11 := ScenarioSecondRead(c, p, q, r);
    var rd := s11.gets[2];
    FoundPair(Resp(r, Some(Nth(p, 1))), Resp(q, Some(Nth(p, 1))));
    MaximalSingle(Nth(p, 1), Found(rd.responses));
    ReachNext(c, s11, EndRead(2, m));
    var s := DoEnd(s11, 2, rd, m);
    StaleResult(c, s, p);
    assert |c.owners| == 3;
  }

  lemma StaleResult(c: Config, s: State, p: Node)
    requires 2 in s.gets && s.gets[2].result == Some([Nth(p, 1)]) && 1 in s.gets[2].earlier
    requires 1 in s.puts && s.puts[1].version == Nth(p, 2)
    ensures !SafeResult(c, s, s.gets[2])
  {
    assert !Leq(Nth(p, 2).clock, Nth(p, 1).clock) by { assert p in Nth(p, 2).clock; }
    assert !NewerOrSame(s.gets[2].result.value[0], s.puts[1].version);
  }
}
