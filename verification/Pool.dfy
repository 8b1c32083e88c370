/**
 The connection pool as an ownership protocol.  A descriptor is the identity of
 one opened connection (the original's integers are reused by the operating
 system after a close; identities here are not).  Each locked section is one
 step, and so is each connect and each close outside the lock.
 */
module Pools {
  import opened Text

  datatype Idle = Idle(fd: nat, since: int)

  datatype Pool = Pool(cap: nat, ttl: int, idle: map<string, seq<Idle>>, stopping: bool)

  function KeyOf(host: string, port: nat): string { host + ":" + Dec(port) }

  /** A host and a port are recovered from their key, whatever the host contains. */
  lemma KeyOfInjective(host: string, port: nat, host': string, port': nat)
    requires KeyOf(host, port) == KeyOf(host', port')
    ensures host == host' && port == port'
  {
    hide Dec;
    var k := KeyOf(host, port);
    SameCut(host, Dec(port), host', Dec(port'));
    assert k[..|host|] == host && k[..|host'|] == host';
    assert k[|host| + 1..] == Dec(port) && k[|host'| + 1..] == Dec(port');
    DecInjective(port, port');
  }

  lemma SameCut(a: string, b: string, a': string, b': string)
    requires a + ":" + b == a' + ":" + b' && ':' !in b && ':' !in b'
    ensures |a| == |a'|
  {
    var k := a + ":" + b;
    assert k[|a|] == ':' && k[|a'|] == ':';
    assert forall i | |a| < i < |k| :: k[i] == b[i - |a| - 1];
    assert forall i | |a'| < i < |k| :: k[i] == b'[i - |a'| - 1];
  }

  // -------------------------------------------------------------------------
  // The locked sections
  // -------------------------------------------------------------------------

  function IdleAt(p: Pool, key: string): seq<Idle> { if key in p.idle then p.idle[key] else [] }

  /** Hand out the most recently returned connection. */
  function Take(p: Pool, key: string): (Pool, Option<nat>) {
    var l := IdleAt(p, key);
    if l == [] then (p, None) else (p.(idle := p.idle[key := l[..|l| - 1]]), Some(l[|l| - 1].fd))
  }

  /** Take a connection back, or say that it must be closed. */
  function Return(p: Pool, key: string, fd: nat, now: int): (Pool, bool) {
    var l := IdleAt(p, key);
    if p.stopping || |l| >= p.cap then (p, true)
    else (p.(idle := p.idle[key := l + [Idle(fd, now)]]), false)
  }

  function Kept(l: seq<Idle>, now: int, ttl: int): seq<Idle> {
    if l == [] then []
    else
      var c := l[|l| - 1];
      Kept(l[..|l| - 1], now, ttl) + if now - c.since > ttl then [] else [c]
  }

  function Expired(l: seq<Idle>, now: int, ttl: int): seq<Idle> {
    if l == [] then []
    else
      var c := l[|l| - 1];
      Expired(l[..|l| - 1], now, ttl) + if now - c.since > ttl then [c] else []
  }

  function KeptAll(m: map<string, seq<Idle>>, now: int, ttl: int): map<string, seq<Idle>> {
    map k | k in m :: Kept(m[k], now, ttl)
  }

  function ExpiredAll(m: map<string, seq<Idle>>, now: int, ttl: int): map<string, seq<Idle>> {
    map k | k in m :: Expired(m[k], now, ttl)
  }

  function Reaped(p: Pool, now: int): Pool { p.(idle := KeptAll(p.idle, now, p.ttl)) }

  function Stopped(p: Pool): Pool { p.(idle := (map k | k in p.idle :: []), stopping := true) }

  ghost function Fds(l: seq<Idle>): multiset<nat> {
    multiset(seq(|l|, i requires 0 <= i < |l| => l[i].fd))
  }

  /** Every descriptor listed anywhere, as often as it is listed. */
  ghost function Listed(m: map<string, seq<Idle>>): multiset<nat>
    decreases |m|
  {
    if m == map[] then multiset{}
    else
      var k :| k in m;
      assert (m - {k}).Keys == m.Keys - {k};
      Fds(m[k]) + Listed(m - {k})
  }

  lemma ListedFirst(m: map<string, seq<Idle>>) returns (k: string)
    requires m != map[]
    ensures k in m && Listed(m) == Fds(m[k]) + Listed(m - {k})
  {
    hide Fds;
    k :| k in m && Listed(m) == Fds(m[k]) + Listed(m - {k});
  }

  lemma {:induction false} ListedTakeOut(m: map<string, seq<Idle>>, key: string)
    requires key in m
    ensures Listed(m) == Fds(m[key]) + Listed(m - {key})
    decreases |m|
  {
    hide Listed, Fds;
    var k := ListedFirst(m);
    if k != key {
      assert (m - {k}).Keys == m.Keys - {k};
      ListedTakeOut(m - {k}, key);
      ListedTakeOut(m - {key}, k);
      assert m - {k} - {key} == m - {key} - {k};
    }
  }

  /** Replacing one list trades its descriptors for the new ones. */
  lemma ListedUpdate(p: Pool, key: string, l: seq<Idle>)
    ensures Listed(p.idle[key := l]) + Fds(IdleAt(p, key)) == Listed(p.idle) + Fds(l)
  {
    hide Listed, Fds;
    var m := p.idle;
    ListedTakeOut(m[key := l], key);
    assert m[key := l] - {key} == m - {key};
    if key in m {
      ListedTakeOut(m, key);
    } else {
      NoFds();
      assert m - {key} == m;
    }
  }

  lemma NoFds()
    ensures Fds([]) == multiset{}
  {
    assert seq(0, i requires 0 <= i < 0 => 0) == [];
  }

  lemma FdsSnoc(l: seq<Idle>, c: Idle)
    ensures Fds(l + [c]) == Fds(l) + multiset{c.fd}
  {
    var a := seq(|l|, i requires 0 <= i < |l| => l[i].fd);
    var b := seq(|l| + 1, i requires 0 <= i < |l| + 1 => (l + [c])[i].fd);
    assert b == a + [c.fd];
  }

  lemma {:induction false} ReapSplitsList(l: seq<Idle>, now: int, ttl: int)
    ensures Fds(l) == Fds(Kept(l, now, ttl)) + Fds(Expired(l, now, ttl))
    ensures |Kept(l, now, ttl)| <= |l|
    decreases |l|
  {
    hide Fds;
    if l == [] {
      NoFds();
    } else {
      var init, c := l[..|l| - 1], l[|l| - 1];
      ReapSplitsList(init, now, ttl);
      assert l == init + [c];
      FdsSnoc(init, c);
      if now - c.since > ttl {
        FdsSnoc(Expired(init, now, ttl), c);
        assert Kept(l, now, ttl) == Kept(init, now, ttl);
      } else {
        FdsSnoc(Kept(init, now, ttl), c);
        assert Expired(l, now, ttl) == Expired(init, now, ttl);
      }
    }
  }

  /** Reaping splits what is listed into what stays and what is to be closed. */
  lemma {:induction false} ReapSplits(m: map<string, seq<Idle>>, now: int, ttl: int)
    ensures Listed(m) == Listed(KeptAll(m, now, ttl)) + Listed(ExpiredAll(m, now, ttl))
    decreases |m|
  {
    hide Fds, Kept, Expired, Listed;
    if m == map[] {
      assert KeptAll(m, now, ttl) == m && ExpiredAll(m, now, ttl) == m;
      NothingListed();
    } else {
      var k := ListedFirst(m);
      assert (m - {k}).Keys == m.Keys - {k};
      ReapSplits(m - {k}, now, ttl);
      ReapSplitsList(m[k], now, ttl);
      ListedTakeOut(KeptAll(m, now, ttl), k);
      ListedTakeOut(ExpiredAll(m, now, ttl), k);
      assert KeptAll(m, now, ttl) - {k} == KeptAll(m - {k}, now, ttl);
      assert ExpiredAll(m, now, ttl) - {k} == ExpiredAll(m - {k}, now, ttl);
    }
  }

  lemma NothingListed()
    ensures Listed(map[]) == multiset{}
  {
  }

  lemma {:induction false} EmptyLists(m: map<string, seq<Idle>>)
    requires forall k | k in m :: m[k] == []
    ensures Listed(m) == multiset{}
    decreases |m|
  {
    hide Fds, Listed;
    if m == map[] {
      NothingListed();
    } else {
      var k := ListedFirst(m);
      assert (m - {k}).Keys == m.Keys - {k};
      NoFds();
      EmptyLists(m - {k});
    }
  }

  lemma ListedHas(m: map<string, seq<Idle>>, k: string, i: nat)
    requires k in m && i < |m[k]|
    ensures m[k][i].fd in Listed(m)
  {
    hide Listed;
    ListedTakeOut(m, k);
    var l := m[k];
    var s := seq(|l|, j requires 0 <= j < |l| => l[j].fd);
    assert s[i] in s && s[i] in multiset(s);
  }

  // -------------------------------------------------------------------------
  // The whole system
  // -------------------------------------------------------------------------

  datatype Claim = Claim(caller: nat, key: string)

  /**
   The pool, its callers and the outside world: `peers[fd]` is the peer `fd` was
   opened to, `closing` the descriptors someone has decided to close and has not
   yet closed, `closed` every close performed.
   */
  datatype System = System(
    pool: Pool, peers: seq<string>, held: map<nat, Claim>, closing: map<nat, nat>, closed: multiset<nat>)

  datatype Step =
    | Reuse(c: nat, key: string)
    | Connect(c: nat, key: string)
    | Checkin(c: nat, fd: nat, now: int)
    | Discard(c: nat, fd: nat)
    | Close(c: nat, fd: nat)
    | Reap(c: nat, now: int)
    | Shutdown

  predicate Holds(s: System, c: nat, fd: nat) { fd in s.held && s.held[fd].caller == c }

  /**
   A step by a caller that does not hold what it names does nothing: callers return
   only what they hold, for its peer.
   */
  ghost function Next(s: System, t: Step): System {
    match t
    case Reuse(c, key) =>
      var (p, o) := Take(s.pool, key);
      if o.None? then s else s.(pool := p, held := s.held[o.value := Claim(c, key)])
    case Connect(c, key) => s.(peers := s.peers + [key], held := s.held[|s.peers| := Claim(c, key)])
    case Checkin(c, fd, now) => if Holds(s, c, fd) then TakenBack(s, c, fd, now) else s
    case Discard(c, fd) =>
      if Holds(s, c, fd) then s.(held := s.held - {fd}, closed := s.closed + multiset{fd}) else s
    case Close(c, fd) =>
      if fd in s.closing && s.closing[fd] == c
      then s.(closing := s.closing - {fd}, closed := s.closed + multiset{fd}) else s
    case Reap(c, now) =>
      var out := Listed(ExpiredAll(s.pool.idle, now, s.pool.ttl));
      s.(pool := Reaped(s.pool, now), closing := s.closing + AllBy(out, c))
    case Shutdown => s.(pool := Stopped(s.pool), closed := s.closed + Listed(s.pool.idle))
  }

  function AllBy(out: multiset<nat>, c: nat): map<nat, nat> { map fd | fd in out :: c }

  function TakenBack(s: System, c: nat, fd: nat, now: int): System
    requires Holds(s, c, fd)
  {
    var (p, close) := Return(s.pool, s.held[fd].key, fd, now);
    if close then s.(held := s.held - {fd}, closing := s.closing[fd := c])
    else s.(pool := p, held := s.held - {fd})
  }

  function Ids(n: nat): (r: set<nat>)
    ensures forall i: nat :: i in r <==> i < n
  {
    if n == 0 then {} else Ids(n - 1) + {n - 1}
  }

  /** Every descriptor ever opened is in exactly one place, once. */
  ghost predicate Conserved(s: System) {
    Listed(s.pool.idle) + multiset(s.held.Keys) + multiset(s.closing.Keys) + s.closed == multiset(Ids(|s.peers|))
  }

  /** A descriptor is pooled and held only for the peer it was opened to. */
  ghost predicate RightPeer(s: System) {
    && (forall fd | fd in s.held :: fd < |s.peers| && s.held[fd].key == s.peers[fd])
    && (forall k | k in s.pool.idle :: ForPeer(s.pool.idle[k], s.peers, k))
  }

  ghost predicate ForPeer(l: seq<Idle>, peers: seq<string>, key: string) {
    forall i | 0 <= i < |l| :: l[i].fd < |peers| && peers[l[i].fd] == key
  }

  ghost predicate Capped(p: Pool) {
    && p.cap >= 1
    && (forall k | k in p.idle :: |p.idle[k]| <= p.cap && (p.stopping ==> p.idle[k] == []))
  }

  ghost predicate Inv(s: System) { Conserved(s) && RightPeer(s) && Capped(s.pool) }

  // -------------------------------------------------------------------------
  // Every step keeps it
  // -------------------------------------------------------------------------

  lemma PlaceOnce(s: System, fd: nat)
    requires Conserved(s)
    ensures Listed(s.pool.idle)[fd] + multiset(s.held.Keys)[fd] + multiset(s.closing.Keys)[fd] + s.closed[fd] ==
            if fd < |s.peers| then 1 else 0
  {
    hide Listed;
    var all := Listed(s.pool.idle) + multiset(s.held.Keys) + multiset(s.closing.Keys) + s.closed;
    assert all[fd] == multiset(Ids(|s.peers|))[fd];
  }

  lemma BagCancel(a: multiset<nat>, b: multiset<nat>, x: multiset<nat>, y: multiset<nat>)
    requires a + (x + y) == b + x
    ensures a + y == b
  {
    forall e: nat ensures (a + y)[e] == b[e] {
      assert (a + (x + y))[e] == (b + x)[e];
    }
  }

  /** The list of `key` replaced by one that is no longer than before, or within the cap, and for its peer. */
  lemma RelistKeeps(s: System, key: string, l: seq<Idle>, held: map<nat, Claim>)
    requires RightPeer(s) && Capped(s.pool) && !s.pool.stopping && |l| <= s.pool.cap && ForPeer(l, s.peers, key)
    requires forall fd | fd in held :: fd < |s.peers| && held[fd].key == s.peers[fd]
    ensures
      var p := s.pool.(idle := s.pool.idle[key := l]);
      RightPeer(s.(pool := p, held := held)) && Capped(p)
  {
    hide ForPeer;
  }

  lemma ReuseKeeps(s: System, c: nat, key: string)
    requires Inv(s)
    ensures Inv(Next(s, Reuse(c, key)))
  {
    hide Listed, Fds, RightPeer;
    var l := IdleAt(s.pool, key);
    if l != [] {
      var init, last := l[..|l| - 1], l[|l| - 1];
      var fd := last.fd;
      var t := Next(s, Reuse(c, key));
      ListedUpdate(s.pool, key, init);
      assert l == init + [last];
      FdsSnoc(init, last);
      BagCancel(Listed(t.pool.idle), Listed(s.pool.idle), Fds(init), multiset{fd});
      PlaceOnce(s, fd);
      KeysPlus(s.held, fd, Claim(c, key));
      ListPeers(s, key);
      HeldPeers(s, t.held, fd, Claim(c, key));
      RelistKeeps(s, key, init, t.held);
    }
  }

  lemma ListPeers(s: System, key: string)
    requires RightPeer(s) && key in s.pool.idle
    ensures ForPeer(s.pool.idle[key], s.peers, key)
  {
  }

  lemma HeldPeers(s: System, held: map<nat, Claim>, fd: nat, claim: Claim)
    requires RightPeer(s) && held == s.held[fd := claim] && fd < |s.peers| && claim.key == s.peers[fd]
    ensures forall x | x in held :: x < |s.peers| && held[x].key == s.peers[x]
  {
  }

  lemma KeysPlus<T>(m: map<nat, T>, fd: nat, x: T)
    requires fd !in m
    ensures multiset(m[fd := x].Keys) == multiset(m.Keys) + multiset{fd}
  {
    assert m[fd := x].Keys == m.Keys + {fd};
  }

  lemma KeysMinus<T>(m: map<nat, T>, fd: nat)
    requires fd in m
    ensures multiset((m - {fd}).Keys) + multiset{fd} == multiset(m.Keys)
  {
    assert (m - {fd}).Keys == m.Keys - {fd};
  }

  lemma ConnectKeeps(s: System, c: nat, key: string)
    requires Inv(s)
    ensures Inv(Next(s, Connect(c, key)))
  {
    hide Listed, ForPeer;
    var fd := |s.peers|;
    PlaceOnce(s, fd);
    KeysPlus(s.held, fd, Claim(c, key));
    forall k | k in s.pool.idle ensures ForPeer(s.pool.idle[k], s.peers + [key], k) {
      MorePeers(s.pool.idle[k], s.peers, k, key);
    }
    assert multiset(Ids(fd + 1)) == multiset(Ids(fd)) + multiset{fd};
  }

  lemma MorePeers(l: seq<Idle>, peers: seq<string>, k: string, key: string)
    requires ForPeer(l, peers, k)
    ensures ForPeer(l, peers + [key], k)
  {
  }

  lemma CheckinKeeps(s: System, c: nat, fd: nat, now: int)
    requires Inv(s) && Holds(s, c, fd)
    ensures Inv(TakenBack(s, c, fd, now))
  {
    hide Listed, Fds;
    var key := s.held[fd].key;
    var l := IdleAt(s.pool, key);
    PlaceOnce(s, fd);
    KeysMinus(s.held, fd);
    if s.pool.stopping || |l| >= s.pool.cap {
      KeysPlus(s.closing, fd, c);
    } else {
      var l' := l + [Idle(fd, now)];
      ListedUpdate(s.pool, key, l');
      FdsSnoc(l, Idle(fd, now));
      BagCancel(Listed(s.pool.idle), Listed(s.pool.idle[key := l']), Fds(l), multiset{fd});
      if key in s.pool.idle { ListPeers(s, key); }
      RelistKeeps(s, key, l', s.held - {fd});
    }
  }

  lemma CloseKeeps(s: System, t: Step)
    requires Inv(s) && (t.Discard? || t.Close?)
    ensures Inv(Next(s, t))
  {
    hide Listed;
    PlaceOnce(s, t.fd);
    if t.Discard? && Holds(s, t.c, t.fd) { KeysMinus(s.held, t.fd); }
    if t.Close? && t.fd in s.closing { KeysMinus(s.closing, t.fd); }
  }

  lemma {:induction false} KeptFrom(l: seq<Idle>, now: int, ttl: int, peers: seq<string>, key: string)
    requires ForPeer(l, peers, key)
    ensures ForPeer(Kept(l, now, ttl), peers, key)
    decreases |l|
  {
    if l != [] { KeptFrom(l[..|l| - 1], now, ttl, peers, key); }
  }

  lemma ReapPeers(s: System, now: int)
    requires RightPeer(s) && Capped(s.pool)
    ensures RightPeer(s.(pool := Reaped(s.pool, now))) && Capped(Reaped(s.pool, now))
  {
    hide Kept, ForPeer;
    forall k | k in s.pool.idle
      ensures ForPeer(Kept(s.pool.idle[k], now, s.pool.ttl), s.peers, k)
      ensures |Kept(s.pool.idle[k], now, s.pool.ttl)| <= |s.pool.idle[k]|
    {
      KeptFrom(s.pool.idle[k], now, s.pool.ttl, s.peers, k);
      ReapSplitsList(s.pool.idle[k], now, s.pool.ttl);
    }
  }

  /** A bag with no repetition, none of it among the keys already there, becomes keys. */
  lemma KeysPlusBag(m: map<nat, nat>, out: multiset<nat>, c: nat)
    requires forall fd | fd in out :: out[fd] == 1 && fd !in m
    ensures multiset((m + AllBy(out, c)).Keys) == multiset(m.Keys) + out
  {
    var r := m + AllBy(out, c);
    forall fd ensures multiset(r.Keys)[fd] == (multiset(m.Keys) + out)[fd] {}
  }

  lemma ReapKeeps(s: System, c: nat, now: int)
    requires Inv(s)
    ensures Inv(Next(s, Reap(c, now)))
  {
    hide Listed, Kept, Expired, KeptAll, ExpiredAll, RightPeer, Capped;
    var out := Listed(ExpiredAll(s.pool.idle, now, s.pool.ttl));
    ReapSplits(s.pool.idle, now, s.pool.ttl);
    ReapPeers(s, now);
    forall fd | fd in out ensures out[fd] == 1 && fd !in s.closing { PlaceOnce(s, fd); }
    KeysPlusBag(s.closing, out, c);
    RightPeerPool(s.(pool := Reaped(s.pool, now)), Next(s, Reap(c, now)));
  }

  lemma RightPeerPool(s: System, t: System)
    requires RightPeer(s) && t.pool == s.pool && t.peers == s.peers && t.held == s.held
    ensures RightPeer(t)
  {
  }

  lemma ShutdownKeeps(s: System)
    requires Inv(s)
    ensures Inv(Next(s, Shutdown))
  {
    hide Listed;
    EmptyLists(Stopped(s.pool).idle);
  }

  lemma StepKeeps(s: System, t: Step)
    requires Inv(s)
    ensures Inv(Next(s, t))
  {
    hide Inv;
    match t
    case Reuse(c, key) => ReuseKeeps(s, c, key);
    case Connect(c, key) => ConnectKeeps(s, c, key);
    case Checkin(c, fd, now) => if Holds(s, c, fd) { CheckinKeeps(s, c, fd, now); }
    case Discard(_, _) => CloseKeeps(s, t);
    case Close(_, _) => CloseKeeps(s, t);
    case Reap(c, now) => ReapKeeps(s, c, now);
    case Shutdown => ShutdownKeeps(s);
  }

  ghost function Run(s: System, ts: seq<Step>): System {
    if ts == [] then s else Next(Run(s, ts[..|ts| - 1]), ts[|ts| - 1])
  }

  function Fresh(cap: nat, ttl: int): System {
    System(Pool(if cap == 0 then 1 else cap, ttl, map[], false), [], map[], map[], multiset{})
  }

  lemma {:induction false} RunKeeps(s: System, ts: seq<Step>)
    requires Inv(s)
    ensures Inv(Run(s, ts))
    decreases |ts|
  {
    hide Inv, Next;
    if ts != [] {
      RunKeeps(s, ts[..|ts| - 1]);
      StepKeeps(Run(s, ts[..|ts| - 1]), ts[|ts| - 1]);
    }
  }

  lemma FreshInv(cap: nat, ttl: int)
    ensures Inv(Fresh(cap, ttl))
  {
    NothingListed();
    assert Ids(0) == {};
  }

  /**
   Over every interleaving, each descriptor ever opened is idle once, or held by
   one caller, or being closed by one caller, or closed exactly once, and never two
   of these; it is pooled and held for its own peer only; no peer's list exceeds
   the cap.
   */
  lemma DescriptorsConserved(cap: nat, ttl: int, ts: seq<Step>, fd: nat)
    ensures
      var s := Run(Fresh(cap, ttl), ts);
      && Listed(s.pool.idle)[fd] + (if fd in s.held then 1 else 0) + (if fd in s.closing then 1 else 0)
         + s.closed[fd] ==
         (if fd < |s.peers| then 1 else 0)
      && RightPeer(s) && Capped(s.pool)
  {
    hide Run, Fresh, Listed, RightPeer, Capped;
    FreshInv(cap, ttl);
    RunKeeps(Fresh(cap, ttl), ts);
    PlaceOnce(Run(Fresh(cap, ttl), ts), fd);
  }

  /**
   After a shutdown, once callers have returned and closed what they had, every
   descriptor has been closed exactly once.
   */
  lemma ShutdownLeaksNothing(cap: nat, ttl: int, ts: seq<Step>)
    requires
      var s := Run(Fresh(cap, ttl), ts);
      s.pool.stopping && s.held == map[] && s.closing == map[]
    ensures
      var s := Run(Fresh(cap, ttl), ts);
      s.closed == multiset(Ids(|s.peers|))
  {
    hide Run, Fresh, Listed, RightPeer;
    FreshInv(cap, ttl);
    RunKeeps(Fresh(cap, ttl), ts);
    EmptyLists(Run(Fresh(cap, ttl), ts).pool.idle);
  }

  // -------------------------------------------------------------------------
  // The pool
  // -------------------------------------------------------------------------

  class ConnectionPool {
    const cap: nat
    const ttl: int
    var idle: map<string, seq<Idle>>
    var stopping: bool

    function State(): Pool
      reads this
    {
      Pool(cap, ttl, idle, stopping)
    }

    constructor (maxPerPeer: nat, idleTtl: int)
      ensures State() == Fresh(maxPerPeer, idleTtl).pool
      ensures cap == (if maxPerPeer == 0 then 1 else maxPerPeer) && ttl == idleTtl && idle == map[] && !stopping
    {
      cap := if maxPerPeer == 0 then 1 else maxPerPeer;
      ttl, idle, stopping := idleTtl, map[], false;
    }

    /** The locked section of `checkout`. */
    method TakeIdle(key: string) returns (fd: Option<nat>)
      modifies this
      ensures (State(), fd) == Take(old(State()), key)
      ensures stopping == old(stopping)
      ensures if key !in old(idle) || old(idle)[key] == [] then fd == None && idle == old(idle)
              else
                var l := old(idle)[key];
                fd == Some(l[|l| - 1].fd) && idle == old(idle)[key := l[..|l| - 1]]
    {
      fd := None;
      if key in idle && idle[key] != [] {
        var l := idle[key];
        fd := Some(l[|l| - 1].fd);
        idle := idle[key := l[..|l| - 1]];
      }
    }

    /** The locked section of `checkin`. */
    method GiveBack(key: string, fd: nat, now: int) returns (closeIt: bool)
      requires cap >= 1
      modifies this
      ensures (State(), closeIt) == Return(old(State()), key, fd, now)
      ensures stopping == old(stopping)
      ensures closeIt <==> old(stopping) || (key in old(idle) && |old(idle)[key]| >= cap)
      ensures closeIt ==> idle == old(idle)
      ensures !closeIt ==>
                idle == old(idle)[key := (if key in old(idle) then old(idle)[key] else []) + [Idle(fd, now)]]
    {
      closeIt := false;
      if stopping {
        closeIt := true;
      } else {
        var l := if key in idle then idle[key] else [];
        if |l| >= cap {
          closeIt := true;
        } else {
          idle := idle[key := l + [Idle(fd, now)]];
        }
      }
    }

    /** One list compacted, its expired entries handed over. */
    static method Compact(l: seq<Idle>, now: int, ttl: int) returns (kept: seq<Idle>, out: seq<nat>)
      ensures kept == Kept(l, now, ttl) && multiset(out) == Fds(Expired(l, now, ttl))
    {
      hide Fds, Kept, Expired;
      kept, out := [], [];
      CompactNone(l, now, ttl);
      for i := 0 to |l|
        invariant kept == Kept(l[..i], now, ttl) && multiset(out) == Fds(Expired(l[..i], now, ttl))
      {
        CompactNext(l, i, now, ttl);
        if now - l[i].since > ttl { out := out + [l[i].fd]; } else { kept := kept + [l[i]]; }
      }
      assert l[..|l|] == l;
    }

    /** The locked section of `reapExpired`, over the peers in some order. */
    method ReapExpired(now: int) returns (toClose: seq<nat>)
      modifies this
      ensures State() == Reaped(old(State()), now)
      ensures multiset(toClose) == Listed(ExpiredAll(old(idle), now, ttl))
      ensures multiset(toClose) + Listed(idle) == Listed(old(idle)) && stopping == old(stopping)
      ensures idle.Keys == old(idle).Keys && forall k | k in idle :: FreshOnly(old(idle)[k], idle[k], now, ttl)
    {
      hide Listed, Fds, Kept, Expired, ExpiredAll, Reaped, Compacted;
      ghost var m := idle;
      toClose := [];
      var todo := idle.Keys;
      NoneExpired(m, now, ttl);
      CompactedNone(m, now, ttl);
      while todo != {}
        invariant Compacted(m, idle, todo, now, ttl) && stopping == old(stopping)
        invariant multiset(toClose) == Listed(ExpiredAll(m - todo, now, ttl))
        decreases |todo|
      {
        var k :| k in todo;
        CompactedNext(m, idle, todo, k, now, ttl);
        OneMoreExpired(m, todo, k, now, ttl);
        todo := todo - {k};
        var kept, out := Compact(idle[k], now, ttl);
        toClose := toClose + out;
        idle := idle[k := kept];
      }
      assert m - {} == m;
      CompactedAll(old(State()), idle, now);
      CompactedKeeps(m, idle, now, ttl);
    }

    /** The locked section of the destructor. */
    method Stop() returns (toClose: seq<nat>)
      modifies this
      ensures State() == Stopped(old(State())) && multiset(toClose) == Listed(old(idle))
      ensures stopping && idle.Keys == old(idle).Keys && forall k | k in idle :: idle[k] == []
    {
      hide Listed, Fds, Stopped, Emptied;
      ghost var m := idle;
      stopping := true;
      toClose := [];
      var todo := idle.Keys;
      assert m - m.Keys == map[];
      NothingListed();
      EmptiedNone(m);
      while todo != {}
        invariant Emptied(m, idle, todo) && stopping
        invariant multiset(toClose) == Listed(m - todo)
        decreases |todo|
      {
        var k :| k in todo;
        EmptiedNext(m, idle, todo, k);
        OneMoreListed(m, todo, k);
        todo := todo - {k};
        var out := FdList(idle[k]);
        toClose := toClose + out;
        idle := idle[k := []];
      }
      assert m - {} == m;
      EmptiedAll(old(State()), idle);
      EmptiedEach(m, idle);
    }

    static method FdList(l: seq<Idle>) returns (out: seq<nat>)
      ensures multiset(out) == Fds(l)
    {
      hide Fds;
      out := [];
      NoFds();
      assert l[..0] == [];
      for i := 0 to |l|
        invariant multiset(out) == Fds(l[..i])
      {
        FdsSnoc(l[..i], l[i]);
        assert l[..i + 1] == l[..i] + [l[i]];
        out := out + [l[i].fd];
      }
      assert l[..|l|] == l;
    }
  }

  /** The shutdown loop with the peers in `todo` still to be visited. */
  ghost predicate Emptied(m: map<string, seq<Idle>>, cur: map<string, seq<Idle>>, todo: set<string>) {
    todo <= m.Keys && cur.Keys == m.Keys && forall k | k in m :: cur[k] == if k in todo then m[k] else []
  }

  lemma EmptiedNone(m: map<string, seq<Idle>>)
    ensures Emptied(m, m, m.Keys)
  {
  }

  lemma EmptiedNext(m: map<string, seq<Idle>>, cur: map<string, seq<Idle>>, todo: set<string>, k: string)
    requires Emptied(m, cur, todo) && k in todo
    ensures todo <= m.Keys && k in cur && cur[k] == m[k] && Emptied(m, cur[k := []], todo - {k})
  {
  }

  lemma EmptiedAll(p: Pool, cur: map<string, seq<Idle>>)
    requires Emptied(p.idle, cur, {})
    ensures Stopped(p) == p.(idle := cur, stopping := true)
  {
  }

  /** The reaping loop with the peers in `todo` still to be visited. */
  ghost predicate Compacted(
    m: map<string, seq<Idle>>, cur: map<string, seq<Idle>>, todo: set<string>, now: int, ttl: int)
  {
    && todo <= m.Keys && cur.Keys == m.Keys
    && forall k | k in m :: cur[k] == if k in todo then m[k] else Kept(m[k], now, ttl)
  }

  lemma CompactedNone(m: map<string, seq<Idle>>, now: int, ttl: int)
    ensures Compacted(m, m, m.Keys, now, ttl)
  {
  }

  lemma CompactedNext(
    m: map<string, seq<Idle>>, cur: map<string, seq<Idle>>, todo: set<string>, k: string, now: int, ttl: int)
    requires Compacted(m, cur, todo, now, ttl) && k in todo
    ensures todo <= m.Keys && k in cur && cur[k] == m[k]
    ensures Compacted(m, cur[k := Kept(m[k], now, ttl)], todo - {k}, now, ttl)
  {
    hide Kept;
  }

  lemma CompactedAll(p: Pool, cur: map<string, seq<Idle>>, now: int)
    requires Compacted(p.idle, cur, {}, now, p.ttl)
    ensures Reaped(p, now) == p.(idle := cur)
  {
    hide Kept;
  }

  lemma EmptiedEach(m: map<string, seq<Idle>>, cur: map<string, seq<Idle>>)
    requires Emptied(m, cur, {})
    ensures cur.Keys == m.Keys && forall k | k in cur :: cur[k] == []
  {
  }

  /** `kept` lists what `l` lists that has been idle for at most the ttl, as often, and nothing else. */
  ghost predicate FreshOnly(l: seq<Idle>, kept: seq<Idle>, now: int, ttl: int) {
    forall c: Idle :: multiset(kept)[c] == if now - c.since <= ttl then multiset(l)[c] else 0
  }

  lemma {:induction false} KeptFresh(l: seq<Idle>, now: int, ttl: int)
    ensures FreshOnly(l, Kept(l, now, ttl), now, ttl)
    decreases |l|
  {
    if l != [] {
      KeptFresh(l[..|l| - 1], now, ttl);
      KeptFreshStep(l[..|l| - 1], l[|l| - 1], Kept(l[..|l| - 1], now, ttl), now, ttl);
      assert l == l[..|l| - 1] + [l[|l| - 1]];
    }
  }

  lemma KeptFreshStep(l: seq<Idle>, c: Idle, kept: seq<Idle>, now: int, ttl: int)
    requires FreshOnly(l, kept, now, ttl)
    ensures FreshOnly(l + [c], kept + if now - c.since > ttl then [] else [c], now, ttl)
  {
    if now - c.since > ttl { assert kept + [] == kept; }
  }

  /** After the loop each list holds the fresh entries, and what is gone is what was to be closed. */
  lemma CompactedKeeps(m: map<string, seq<Idle>>, cur: map<string, seq<Idle>>, now: int, ttl: int)
    requires Compacted(m, cur, {}, now, ttl)
    ensures cur.Keys == m.Keys && forall k | k in cur :: FreshOnly(m[k], cur[k], now, ttl)
    ensures Listed(ExpiredAll(m, now, ttl)) + Listed(cur) == Listed(m)
  {
    hide Kept, Listed, ExpiredAll, FreshOnly;
    assert cur == KeptAll(m, now, ttl);
    ReapSplits(m, now, ttl);
    forall k | k in cur ensures FreshOnly(m[k], cur[k], now, ttl) { KeptFresh(m[k], now, ttl); }
  }

  lemma OneMoreListed(m: map<string, seq<Idle>>, todo: set<string>, k: string)
    requires k in todo && todo <= m.Keys
    ensures Listed(m - (todo - {k})) == Listed(m - todo) + Fds(m[k])
  {
    hide Listed, Fds;
    ListedTakeOut(m - (todo - {k}), k);
    assert m - (todo - {k}) - {k} == m - todo;
  }

  lemma NoneExpired(m: map<string, seq<Idle>>, now: int, ttl: int)
    ensures Listed(ExpiredAll(m - m.Keys, now, ttl)) == multiset{}
  {
    assert ExpiredAll(m - m.Keys, now, ttl) == map[];
    NothingListed();
  }

  lemma OneMoreExpired(m: map<string, seq<Idle>>, todo: set<string>, k: string, now: int, ttl: int)
    requires k in todo && todo <= m.Keys
    ensures Listed(ExpiredAll(m - (todo - {k}), now, ttl)) ==
            Listed(ExpiredAll(m - todo, now, ttl)) + Fds(Expired(m[k], now, ttl))
  {
    hide Listed, Fds, Expired;
    var e := ExpiredAll(m - (todo - {k}), now, ttl);
    ListedTakeOut(e, k);
    assert e - {k} == ExpiredAll(m - todo, now, ttl);
  }

  lemma TakeNothing(p: Pool, key: string)
    requires Take(p, key).1.None?
    ensures Take(p, key).0 == p
  {
  }

  lemma CompactNone(l: seq<Idle>, now: int, ttl: int)
    ensures Kept(l[..0], now, ttl) == [] && Fds(Expired(l[..0], now, ttl)) == multiset{}
  {
    NoFds();
  }

  lemma CompactNext(l: seq<Idle>, i: nat, now: int, ttl: int)
    requires i < |l|
    ensures
      var old', gone := Kept(l[..i], now, ttl), Fds(Expired(l[..i], now, ttl));
      var keep, out := Kept(l[..i + 1], now, ttl), Fds(Expired(l[..i + 1], now, ttl));
      if now - l[i].since > ttl then keep == old' && out == gone + multiset{l[i].fd}
      else keep == old' + [l[i]] && out == gone
  {
    hide Fds;
    assert l[..i + 1][..i] == l[..i];
    FdsSnoc(Expired(l[..i], now, ttl), l[i]);
    assert Expired(l[..i], now, ttl) + [] == Expired(l[..i], now, ttl);
    assert Kept(l[..i], now, ttl) + [] == Kept(l[..i], now, ttl);
  }

  // -------------------------------------------------------------------------
  // A client among others
  // -------------------------------------------------------------------------

  ghost function HeldBy(s: System, c: nat): set<nat> { set fd | fd in s.held && s.held[fd].caller == c }

  ghost function ClosingBy(s: System, c: nat): set<nat> { set fd | fd in s.closing && s.closing[fd] == c }

  /** A step of anyone but `c`. */
  predicate Foreign(c: nat, t: Step) { t.Shutdown? || t.c != c }

  lemma ForeignKeepsHeld(s: System, t: Step, c: nat)
    requires Inv(s) && Foreign(c, t)
    ensures HeldBy(Next(s, t), c) == HeldBy(s, c)
  {
    hide Listed, RightPeer, Capped;
    match t
    case Reuse(_, key) =>
      var l := IdleAt(s.pool, key);
      if l != [] {
        ListedHas(s.pool.idle, key, |l| - 1);
        PlaceOnce(s, l[|l| - 1].fd);
      }
    case Connect(_, _) => PlaceOnce(s, |s.peers|);
    case _ =>
  }

  lemma ForeignKeepsClosing(s: System, t: Step, c: nat)
    requires Inv(s) && Foreign(c, t)
    ensures ClosingBy(Next(s, t), c) == ClosingBy(s, c) && s.closed <= Next(s, t).closed
  {
    hide Listed, RightPeer, Capped, KeptAll, ExpiredAll;
    match t
    case Checkin(_, fd, _) => PlaceOnce(s, fd);
    case Reap(_, now) =>
      var out := Listed(ExpiredAll(s.pool.idle, now, s.pool.ttl));
      ReapSplits(s.pool.idle, now, s.pool.ttl);
      forall fd | fd in out ensures fd !in s.closing { PlaceOnce(s, fd); }
    case _ =>
  }

  /** The pool in use: real calls on it, with who holds and closes what recorded beside it. */
  class World {
    const pool: ConnectionPool
    var peers: seq<string>
    var held: map<nat, Claim>
    var closing: map<nat, nat>
    var closed: multiset<nat>

    function State(): System
      reads this, pool
    {
      System(pool.State(), peers, held, closing, closed)
    }

    constructor (maxPerPeer: nat, idleTtl: int)
      ensures fresh(pool) && State() == Fresh(maxPerPeer, idleTtl) && Inv(State())
    {
      pool := new ConnectionPool(maxPerPeer, idleTtl);
      peers, held, closing, closed := [], map[], map[], multiset{};
      new;
      FreshInv(maxPerPeer, idleTtl);
    }

    method PerformReuse(c: nat, key: string) returns (fd: Option<nat>)
      modifies this, pool
      ensures State() == Next(old(State()), Reuse(c, key)) && fd == Take(old(State()).pool, key).1
    {
      hide Take;
      fd := pool.TakeIdle(key);
      if fd.Some? { held := held[fd.value := Claim(c, key)]; } else { TakeNothing(old(State()).pool, key); }
    }

    method PerformCheckin(c: nat, fd: nat, now: int) returns (closeIt: bool)
      requires pool.cap >= 1
      modifies this, pool
      ensures State() == Next(old(State()), Checkin(c, fd, now))
      ensures closeIt == (Holds(old(State()), c, fd) && Return(old(State()).pool, old(held)[fd].key, fd, now).1)
    {
      closeIt := false;
      if fd in held && held[fd].caller == c {
        closeIt := pool.GiveBack(held[fd].key, fd, now);
        held := held - {fd};
        if closeIt { closing := closing[fd := c]; }
      }
    }

    method PerformReap(c: nat, now: int)
      modifies this, pool
      ensures State() == Next(old(State()), Reap(c, now))
    {
      hide Listed, ExpiredAll, Reaped, AllBy;
      var out := pool.ReapExpired(now);
      closing := closing + AllBy(multiset(out), c);
    }

    method PerformShutdown()
      modifies this, pool
      ensures State() == Next(old(State()), Shutdown)
    {
      hide Listed, Stopped;
      var out := pool.Stop();
      closed := closed + multiset(out);
    }

    method Perform(t: Step)
      requires pool.cap >= 1
      modifies this, pool
      ensures State() == Next(old(State()), t)
    {
      hide Listed, Take, TakenBack, Reaped, Stopped;
      match t {
        case Reuse(c, key) => var _ := PerformReuse(c, key);
        case Connect(c, key) =>
          held := held[|peers| := Claim(c, key)];
          peers := peers + [key];
        case Checkin(c, fd, now) => var _ := PerformCheckin(c, fd, now);
        case Discard(c, fd) =>
          if fd in held && held[fd].caller == c { held, closed := held - {fd}, closed + multiset{fd}; }
        case Close(c, fd) =>
          if fd in closing && closing[fd] == c { closing, closed := closing - {fd}, closed + multiset{fd}; }
        case Reap(c, now) => PerformReap(c, now);
        case Shutdown => PerformShutdown();
      }
    }

    /** Whatever others do in the meantime. */
    method Others(c: nat, ts: seq<Step>)
      requires pool.cap >= 1 && Inv(State()) && forall t | t in ts :: Foreign(c, t)
      modifies this, pool
      ensures Inv(State()) && HeldBy(State(), c) == old(HeldBy(State(), c))
      ensures ClosingBy(State(), c) == old(ClosingBy(State(), c)) && old(closed) <= closed && old(peers) <= peers
    {
      hide Inv, Next, HeldBy, ClosingBy;
      for i := 0 to |ts|
        invariant Inv(State()) && HeldBy(State(), c) == old(HeldBy(State(), c))
        invariant ClosingBy(State(), c) == old(ClosingBy(State(), c)) && old(closed) <= closed && old(peers) <= peers
      {
        assert ts[i] in ts;
        PeersGrow(State(), ts[i]);
        ForeignKeepsHeld(State(), ts[i], c);
        ForeignKeepsClosing(State(), ts[i], c);
        StepKeeps(State(), ts[i]);
        Perform(ts[i]);
      }
    }

    /** `checkout`: an idle connection, or else a fresh one if the connect succeeds. */
    method Checkout(c: nat, key: string, connects: bool, meantime: seq<Step>) returns (fd: Option<nat>)
      requires pool.cap >= 1 && Inv(State()) && forall t | t in meantime :: Foreign(c, t)
      modifies this, pool
      ensures Inv(State()) && ClosingBy(State(), c) == old(ClosingBy(State(), c)) && old(closed) <= closed
      ensures fd.None? ==> !connects && HeldBy(State(), c) == old(HeldBy(State(), c))
      ensures fd.Some? ==> fd.value !in old(HeldBy(State(), c))
      ensures fd.Some? ==> HeldBy(State(), c) == old(HeldBy(State(), c)) + {fd.value}
      ensures fd.Some? ==> Holds(State(), c, fd.value) && held[fd.value].key == key == peers[fd.value]
      ensures fd.Some? ==> (fd.value >= |old(peers)| <==> IdleAt(old(State()).pool, key) == [])
    {
      hide Inv, Next, Take, HeldBy, ClosingBy, Holds, RightPeer;
      TakeIff(State().pool, key);
      ReuseHolds(State(), c, key);
      StepKeeps(State(), Reuse(c, key));
      PeersGrow(State(), Reuse(c, key));
      fd := PerformReuse(c, key);
      if fd.Some? { return; }
      Others(c, meantime);
      if !connects { return; }
      fd := Some(|peers|);
      ConnectHolds(State(), c, key);
      StepKeeps(State(), Connect(c, key));
      Perform(Connect(c, key));
    }

    /** `checkin`: taken back, or closed once outside the lock. */
    method CheckinAll(c: nat, fd: nat, now: int, meantime: seq<Step>)
      requires pool.cap >= 1 && Inv(State()) && Holds(State(), c, fd) && forall t | t in meantime :: Foreign(c, t)
      modifies this, pool
      ensures Inv(State()) && HeldBy(State(), c) == old(HeldBy(State(), c)) - {fd}
      ensures ClosingBy(State(), c) == old(ClosingBy(State(), c)) && old(closed) <= closed
    {
      hide Inv, Next, Return, HeldBy, ClosingBy, Holds;
      CheckinReleases(State(), c, fd, now);
      StepKeeps(State(), Checkin(c, fd, now));
      var closeIt := PerformCheckin(c, fd, now);
      Others(c, meantime);
      if closeIt {
        CloseReleases(State(), c, fd);
        StepKeeps(State(), Close(c, fd));
        Perform(Close(c, fd));
      }
    }

    /**
     One attempt of `exchange`: a checkout, a round trip, and the connection
     returned or discarded.  It is on a newly opened connection exactly when the peer
     has none idle.
     */
    method Attempt(c: nat, key: string, connects: bool, reply: bool, now: int, meantime: nat -> seq<Step>)
      returns (fd: Option<nat>)
      requires pool.cap >= 1 && Inv(State()) && forall j :: forall t | t in meantime(j) :: Foreign(c, t)
      modifies this, pool
      ensures Inv(State()) && HeldBy(State(), c) == old(HeldBy(State(), c))
      ensures ClosingBy(State(), c) == old(ClosingBy(State(), c))
      ensures old(closed) <= closed && (fd.None? ==> !connects) && (fd.Some? && !reply ==> fd.value in closed)
      ensures fd.Some? ==> (fd.value >= |old(peers)| <==> IdleAt(old(State()).pool, key) == [])
    {
      hide Inv, Next, HeldBy, ClosingBy, Holds, IdleAt;
      fd := Checkout(c, key, connects, meantime(1));
      if fd.None? { return; }
      Others(c, meantime(2));
      HoldsIff(State(), c, fd.value);
      if reply {
        CheckinAll(c, fd.value, now, meantime(3));
      } else {
        DiscardReleases(State(), c, fd.value);
        StepKeeps(State(), Discard(c, fd.value));
        Perform(Discard(c, fd.value));
      }
    }

    /**
     `exchange`: at most two attempts, others free to act at every point.  It ends
     holding nothing and owing no close, and every connection whose round trip
     failed has been closed.
     */
    method Exchange(
      c: nat, key: string, connects: nat -> bool, replies: nat -> bool, now: int, meantime: nat -> nat -> seq<Step>)
      returns (ok: bool, broken: seq<nat>)
      requires pool.cap >= 1 && Inv(State()) && forall i, j :: forall t | t in meantime(i)(j) :: Foreign(c, t)
      modifies this, pool
      ensures Inv(State()) && HeldBy(State(), c) == old(HeldBy(State(), c))
      ensures ClosingBy(State(), c) == old(ClosingBy(State(), c))
      ensures |broken| <= 2 && (forall a | 0 <= a < |broken| :: broken[a] in closed && !replies(a))
      ensures if ok then |broken| < 2 && replies(|broken|) else |broken| < 2 ==> !connects(|broken|)
    {
      hide Inv, HeldBy, ClosingBy;
      broken := [];
      var attempt := 0;
      while attempt < 2
        invariant 0 <= attempt <= 2 && |broken| == attempt
        invariant Inv(State()) && HeldBy(State(), c) == old(HeldBy(State(), c))
        invariant ClosingBy(State(), c) == old(ClosingBy(State(), c))
        invariant forall a | 0 <= a < |broken| :: broken[a] in closed && !replies(a)
      {
        Others(c, meantime(attempt)(0));
        var fd := Attempt(c, key, connects(attempt), replies(attempt), now, meantime(attempt));
        if fd.None? { return false, broken; }
        if replies(attempt) { return true, broken; }
        broken := broken + [fd.value];
        attempt := attempt + 1;
      }
      return false, broken;
    }
  }

  lemma HoldsIff(s: System, c: nat, fd: nat)
    ensures fd in HeldBy(s, c) <==> Holds(s, c, fd)
  {
  }

  lemma ReuseHolds(s: System, c: nat, key: string)
    requires Inv(s)
    ensures
      var t, o := Next(s, Reuse(c, key)), Take(s.pool, key).1;
      && ClosingBy(t, c) == ClosingBy(s, c) && t.closed == s.closed
      && (o.None? ==> HeldBy(t, c) == HeldBy(s, c))
      && (o.Some? ==>
            && o.value !in HeldBy(s, c) && HeldBy(t, c) == HeldBy(s, c) + {o.value}
            && Holds(t, c, o.value) && o.value < |s.peers| == |t.peers|
            && t.held[o.value].key == key == t.peers[o.value])
  {
    hide Listed;
    var l := IdleAt(s.pool, key);
    if l != [] {
      ListedHas(s.pool.idle, key, |l| - 1);
      PlaceOnce(s, l[|l| - 1].fd);
      ListPeers(s, key);
    }
  }

  lemma ConnectHolds(s: System, c: nat, key: string)
    requires Inv(s)
    ensures
      var t, fd := Next(s, Connect(c, key)), |s.peers|;
      && ClosingBy(t, c) == ClosingBy(s, c) && t.closed == s.closed
      && fd !in HeldBy(s, c) && HeldBy(t, c) == HeldBy(s, c) + {fd}
      && Holds(t, c, fd) && t.held[fd].key == key && |t.peers| == fd + 1 && t.peers[fd] == key
  {
    hide Listed, RightPeer, Capped;
    PlaceOnce(s, |s.peers|);
  }

  lemma CheckinReleases(s: System, c: nat, fd: nat, now: int)
    requires Inv(s) && Holds(s, c, fd)
    ensures
      var t := Next(s, Checkin(c, fd, now));
      && HeldBy(t, c) == HeldBy(s, c) - {fd} && t.closed == s.closed && fd !in ClosingBy(s, c)
      && ClosingBy(t, c) == ClosingBy(s, c) + if Return(s.pool, s.held[fd].key, fd, now).1 then {fd} else {}
  {
    hide Listed, RightPeer, Capped;
    PlaceOnce(s, fd);
  }

  lemma CloseReleases(s: System, c: nat, fd: nat)
    requires fd in ClosingBy(s, c)
    ensures
      var t := Next(s, Close(c, fd));
      HeldBy(t, c) == HeldBy(s, c) && ClosingBy(t, c) == ClosingBy(s, c) - {fd} && s.closed <= t.closed
  {
  }

  lemma DiscardReleases(s: System, c: nat, fd: nat)
    requires Inv(s) && Holds(s, c, fd)
    ensures
      var t := Next(s, Discard(c, fd));
      && HeldBy(t, c) == HeldBy(s, c) - {fd} && ClosingBy(t, c) == ClosingBy(s, c)
      && s.closed <= t.closed && fd in t.closed
  {
  }

  lemma PeersGrow(s: System, t: Step)
    ensures s.peers <= Next(s, t).peers
  {
    hide Listed, Take, Return;
  }

  lemma TakeIff(p: Pool, key: string)
    ensures Take(p, key).1.None? <==> IdleAt(p, key) == []
  {
  }

  // -------------------------------------------------------------------------
  // The retry
  // -------------------------------------------------------------------------

  /** The connection an attempt of `c` would use: the last idle one, else one newly opened. */
  function Drawn(s: System, key: string): nat {
    var o := Take(s.pool, key).1;
    if o.Some? then o.value else |s.peers|
  }

  /** After an attempt of `c` whose round trip failed, nobody else acting. */
  ghost function AfterFailure(s: System, c: nat, key: string): System {
    var t := Next(s, if Take(s.pool, key).1.Some? then Reuse(c, key) else Connect(c, key));
    Next(t, Discard(c, Drawn(s, key)))
  }

  lemma AfterFailureIs(s: System, c: nat, key: string)
    ensures
      var t, l := AfterFailure(s, c, key), IdleAt(s.pool, key);
      && t.pool == Take(s.pool, key).0
      && IdleAt(t.pool, key) == (if l == [] then [] else l[..|l| - 1])
      && t.peers == (if l == [] then s.peers + [key] else s.peers)
      && Drawn(s, key) in t.closed
  {
    hide Listed;
  }

  /** Left to itself, the retry is on a newly opened connection if and only if at most one was idle to begin with. */
  lemma RetryIsFreshIff(s: System, c: nat, key: string)
    requires Inv(s)
    ensures
      var t := AfterFailure(s, c, key);
      Drawn(t, key) == |t.peers| <==> |IdleAt(s.pool, key)| <= 1
  {
    hide Listed, AfterFailure, Capped;
    var t, l := AfterFailure(s, c, key), IdleAt(s.pool, key);
    AfterFailureIs(s, c, key);
    if |l| > 1 {
      ListPeers(s, key);
      assert l[|l| - 2].fd < |s.peers|;
    }
  }

  /** Two connections opened and returned. */
  function Warm(key: string): seq<Step> { [Connect(0, key), Connect(0, key), Checkin(0, 0, 0), Checkin(0, 1, 0)] }

  lemma WarmIs(cap: nat, ttl: int, key: string)
    requires cap >= 2
    ensures
      var s := Run(Fresh(cap, ttl), Warm(key));
      s.peers == [key, key] && IdleAt(s.pool, key) == [Idle(0, 0), Idle(1, 0)]
  {
    hide Listed;
    var ts := Warm(key);
    assert ts[..3][..2] == ts[..2] && ts[..2][..1] == ts[..1] && ts[..1][..0] == [];
    var s0 := Fresh(cap, ttl);
    var s1 := Next(s0, ts[0]);
    var s2 := Next(s1, ts[1]);
    var s3 := Next(s2, ts[2]);
    assert Run(s0, ts[..1]) == s1;
    assert Run(s0, ts[..2]) == s2;
    assert Run(s0, ts[..3]) == s3;
  }

  /**
   With two idle connections gone stale, both attempts draw one of them: the
   exchange fails with both closed and no connection opened, whether or not the peer
   would accept one.
   */
  lemma TwoStaleConnections(cap: nat, ttl: int, key: string, c: nat)
    requires cap >= 2
    ensures
      var s := Run(Fresh(cap, ttl), Warm(key));
      var t := AfterFailure(s, c, key);
      var u := AfterFailure(t, c, key);
      Drawn(s, key) == 1 && Drawn(t, key) == 0 && u.peers == s.peers && IdleAt(u.pool, key) == []
  {
    hide Run, Fresh, Listed, AfterFailure;
    WarmIs(cap, ttl, key);
    var s := Run(Fresh(cap, ttl), Warm(key));
    AfterFailureIs(s, c, key);
    AfterFailureIs(AfterFailure(s, c, key), c, key);
  }
}
