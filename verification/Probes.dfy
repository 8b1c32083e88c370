/**
 Whom the gossip thread probes on each tick, and when a digest mismatch starts a
 membership sync.
 */
module Probes {
  import opened Text

  const DEAD_PROBE_EVERY: nat := 5
  const MISMATCH_THRESHOLD: nat := 2
  const SYNC_COOLDOWN: nat := 10

  // -------------------------------------------------------------------------
  // Probing
  // -------------------------------------------------------------------------

  /** The dead and the live member contacted on one tick, if any. */
  datatype Turn = Turn(probe: Option<string>, ping: Option<string>)

  function ProbeOn(tick: nat, dead: seq<string>): Option<string> {
    if tick % DEAD_PROBE_EVERY == 0 && dead != [] then Some(dead[tick / DEAD_PROBE_EVERY % |dead|]) else None
  }

  function PingOn(idx: nat, alive: seq<string>): Option<string> {
    if alive != [] then Some(alive[idx % |alive|]) else None
  }

  /** What happens on the i-th tick after tick `tick`, the two lists staying as they are. */
  function TurnAt(tick: nat, idx: nat, dead: seq<string>, alive: seq<string>, i: nat): Turn {
    Turn(ProbeOn(tick + 1 + i, dead), PingOn(idx + i, alive))
  }

  ghost predicate Distinct(s: seq<string>) { forall i, j | 0 <= i < j < |s| :: s[i] != s[j] }

  lemma ModOf(d: nat, k: nat, j: nat)
    requires j < d
    ensures (d * k + j) % d == j && (d * k + j) / d == k
  {
    var q, r := (d * k + j) / d, (d * k + j) % d;
    assert d * q + r == d * k + j;
    if q < k { Gap(d, q, k); }
    if q > k { Gap(d, k, q); }
  }

  lemma {:induction false} Gap(d: nat, a: nat, b: nat)
    requires a < b
    ensures d * a + d <= d * b
    decreases b
  {
    assert d * b == d * (b - 1) + d;
    if a < b - 1 { Gap(d, a, b - 1); }
  }

  /** Among `d` numbers in a row, the one that leaves remainder `j`. */
  function Residue(q: nat, d: nat, j: nat): nat
    requires j < d
  {
    if j >= q % d then q + (j - q % d) else q + d - (q % d - j)
  }

  lemma ResidueIs(q: nat, d: nat, j: nat)
    requires j < d
    ensures q <= Residue(q, d, j) < q + d && Residue(q, d, j) % d == j
  {
    var k := q / d;
    assert q == d * k + q % d;
    ModOf(d, k, j);
    ModOf(d, k + 1, j);
    assert d * (k + 1) == d * k + d;
  }

  lemma ResidueUnique(x: nat, y: nat, d: nat)
    requires d > 0 && x <= y < x + d && x % d == y % d
    ensures x == y
  {
    assert x == d * (x / d) + x % d && y == d * (y / d) + y % d;
    if x / d < y / d { Gap(d, x / d, y / d); }
    if x / d > y / d { Gap(d, y / d, x / d); }
  }

  lemma ResidueOnly(q: nat, x: nat, d: nat, j: nat)
    requires j < d && q <= x < q + d && x % d == j
    ensures x == Residue(q, d, j)
  {
    ResidueIs(q, d, j);
    if x <= Residue(q, d, j) { ResidueUnique(x, Residue(q, d, j), d); } else { ResidueUnique(Residue(q, d, j), x, d); }
  }

  lemma IndexIs(s: seq<string>, i: nat, j: nat)
    requires Distinct(s) && i < |s| && j < |s| && s[i] == s[j]
    ensures i == j
  {
  }

  /** While the dead set stays as it is, each of its `d` members is probed exactly once in any 5d ticks. */
  lemma EachDeadProbedOnce(tick: nat, idx: nat, dead: seq<string>, alive: seq<string>, j: nat)
    requires Distinct(dead) && j < |dead|
    ensures exists i | 0 <= i < DEAD_PROBE_EVERY * |dead| ::
              && TurnAt(tick, idx, dead, alive, i).probe == Some(dead[j])
              && forall k | 0 <= k < DEAD_PROBE_EVERY * |dead| ::
                   TurnAt(tick, idx, dead, alive, k).probe == Some(dead[j]) ==> k == i
  {
    hide Residue;
    var d := |dead|;
    var q := tick / 5 + 1;
    var x := Residue(q, d, j);
    ResidueIs(q, d, j);
    var i := 5 * x - tick - 1;
    assert TurnAt(tick, idx, dead, alive, i).probe == Some(dead[j]);
    forall k | 0 <= k < 5 * d && TurnAt(tick, idx, dead, alive, k).probe == Some(dead[j]) ensures k == i {
      var t := tick + 1 + k;
      IndexIs(dead, t / 5 % d, j);
      ResidueOnly(q, t / 5, d, j);
    }
  }

  /** While the live set stays as it is, each of its `m` members is chosen exactly once in any m ticks. */
  lemma EachLivePingedOnce(tick: nat, idx: nat, dead: seq<string>, alive: seq<string>, j: nat)
    requires Distinct(alive) && j < |alive|
    ensures exists i | 0 <= i < |alive| ::
              && TurnAt(tick, idx, dead, alive, i).ping == Some(alive[j])
              && forall k | 0 <= k < |alive| :: TurnAt(tick, idx, dead, alive, k).ping == Some(alive[j]) ==> k == i
  {
    hide Residue;
    var m := |alive|;
    ResidueIs(idx, m, j);
    var i := Residue(idx, m, j) - idx;
    assert TurnAt(tick, idx, dead, alive, i).ping == Some(alive[j]);
    forall k | 0 <= k < m && TurnAt(tick, idx, dead, alive, k).ping == Some(alive[j]) ensures k == i {
      IndexIs(alive, (idx + k) % m, j);
      ResidueOnly(idx, idx + k, m, j);
    }
  }

  // -------------------------------------------------------------------------
  // When to sync
  // -------------------------------------------------------------------------

  /** What an ack's digest says; a missing or unreadable one says nothing. */
  datatype Verdict = Nothing | Same | Differs

  function Judge(field: string, own: nat): Verdict {
    if field == "" then Nothing
    else match Stoull(field) case None => Nothing case Some(v) => if v == own then Same else Differs
  }

  datatype Streak = Streak(consecutive: nat, lastSync: nat)

  function StreakOf(m: map<string, Streak>, peer: string): Streak {
    if peer in m then m[peer] else Streak(0, 0)
  }

  /** A mismatch starts a sync: the second in a row, and not too soon after the last one. */
  predicate Fires(s: Streak, tick: nat) {
    s.consecutive + 1 >= MISMATCH_THRESHOLD && !(s.lastSync != 0 && tick - s.lastSync < SYNC_COOLDOWN)
  }

  function AfterAck(m: map<string, Streak>, tick: nat, peer: string, v: Verdict): map<string, Streak> {
    match v
    case Nothing => m
    case Same => m - {peer}
    case Differs =>
      var s := StreakOf(m, peer);
      m[peer := if Fires(s, tick) then Streak(0, tick) else s.(consecutive := s.consecutive + 1)]
  }

  datatype Ack = Ack(tick: nat, peer: string, verdict: Verdict)

  function Streaks(acks: seq<Ack>): map<string, Streak> {
    if acks == [] then map[]
    else
      var a := acks[|acks| - 1];
      AfterAck(Streaks(acks[..|acks| - 1]), a.tick, a.peer, a.verdict)
  }

  /** The i-th ack starts a sync. */
  predicate Syncs(acks: seq<Ack>, i: nat)
    requires i < |acks|
  {
    acks[i].verdict.Differs? && Fires(StreakOf(Streaks(acks[..i]), acks[i].peer), acks[i].tick)
  }

  /**
   Acks are handled by the ticking thread, after the first tick: on a tick the
   pinged member's (or one proxy's), and before it, when a dead member is probed,
   that member's.
   */
  ghost predicate InOrder(acks: seq<Ack>) {
    && (forall i | 0 <= i < |acks| :: acks[i].tick >= 1)
    && (forall i, j | 0 <= i < j < |acks| :: acks[i].tick <= acks[j].tick)
    && (forall i, j | 0 <= i < j < |acks| && acks[i].tick == acks[j].tick ::
          j == i + 1 && acks[i].tick % DEAD_PROBE_EVERY == 0)
  }

  /** The mismatches of `peer` among acks `lo` to `hi`. */
  function Mismatches(acks: seq<Ack>, peer: string, lo: nat, hi: nat): nat
    requires lo <= hi <= |acks|
    decreases hi
  {
    if lo == hi then 0
    else Mismatches(acks, peer, lo, hi - 1) +
         if acks[hi - 1].peer == peer && acks[hi - 1].verdict.Differs? then 1 else 0
  }

  lemma StreaksNext(acks: seq<Ack>, j: nat)
    requires j < |acks|
    ensures Streaks(acks[..j + 1]) == AfterAck(Streaks(acks[..j]), acks[j].tick, acks[j].peer, acks[j].verdict)
  {
    assert acks[..j + 1][..j] == acks[..j];
  }

  lemma AfterAckElsewhere(m: map<string, Streak>, a: Ack, peer: string)
    requires a.peer != peer || a.verdict.Nothing?
    ensures StreakOf(AfterAck(m, a.tick, a.peer, a.verdict), peer) == StreakOf(m, peer)
  {
  }

  lemma AfterMismatch(m: map<string, Streak>, a: Ack)
    requires a.verdict.Differs?
    ensures
      var s := StreakOf(m, a.peer);
      StreakOf(AfterAck(m, a.tick, a.peer, a.verdict), a.peer) ==
      if Fires(s, a.tick) then Streak(0, a.tick) else s.(consecutive := s.consecutive + 1)
  {
  }

  /** Nothing from `peer` matches after ack `i` up to `j`. */
  ghost predicate NoMatch(acks: seq<Ack>, peer: string, i: nat, j: nat)
    requires j <= |acks|
  {
    forall k | i < k < j :: acks[k].peer == peer ==> !acks[k].verdict.Same?
  }

  /**
   From a sync to the next one, the record for the peer remembers the sync's tick
   and counts no more than the mismatches seen.
   */
  lemma {:induction false} SinceSync(acks: seq<Ack>, i: nat, j: nat)
    requires i < j <= |acks| && Syncs(acks, i) && NoMatch(acks, acks[i].peer, i, j)
    requires forall k | i < k < j && acks[k].peer == acks[i].peer :: !Syncs(acks, k)
    ensures
      var s := StreakOf(Streaks(acks[..j]), acks[i].peer);
      s.lastSync == acks[i].tick && s.consecutive <= Mismatches(acks, acks[i].peer, i + 1, j)
    decreases j
  {
    hide AfterAck, Streaks, StreakOf, Fires;
    var peer := acks[i].peer;
    var a := acks[j - 1];
    StreaksNext(acks, j - 1);
    if a.verdict.Differs? { AfterMismatch(Streaks(acks[..j - 1]), a); }
    if j > i + 1 {
      SinceSync(acks, i, j - 1);
      if a.peer != peer || a.verdict.Nothing? { AfterAckElsewhere(Streaks(acks[..j - 1]), a, peer); }
    }
  }

  /** Two syncs in a row with one peer are 10 ticks and 2 mismatches apart. */
  lemma AdjacentSyncs(acks: seq<Ack>, i: nat, j: nat)
    requires InOrder(acks) && i < j < |acks| && acks[i].peer == acks[j].peer && Syncs(acks, i) && Syncs(acks, j)
    requires NoMatch(acks, acks[i].peer, i, j)
    requires forall k | i < k < j && acks[k].peer == acks[i].peer :: !Syncs(acks, k)
    ensures acks[j].tick - acks[i].tick >= SYNC_COOLDOWN
    ensures Mismatches(acks, acks[i].peer, i + 1, j + 1) >= MISMATCH_THRESHOLD
  {
    SinceSync(acks, i, j);
  }

  lemma {:induction false} MismatchesGrow(acks: seq<Ack>, peer: string, lo: nat, mid: nat, hi: nat)
    requires lo <= mid <= hi <= |acks|
    ensures Mismatches(acks, peer, mid, hi) <= Mismatches(acks, peer, lo, hi)
    decreases hi
  {
    if mid < hi { MismatchesGrow(acks, peer, lo, mid, hi - 1); }
  }

  /**
   Any two syncs started with one peer, with no matching digest from it between
   them, are at least 10 ticks and 2 mismatches apart.
   */
  lemma {:induction false} SyncsSpaced(acks: seq<Ack>, i: nat, j: nat)
    requires InOrder(acks) && i < j < |acks| && acks[i].peer == acks[j].peer && Syncs(acks, i) && Syncs(acks, j)
    requires NoMatch(acks, acks[i].peer, i, j)
    ensures acks[j].tick - acks[i].tick >= SYNC_COOLDOWN
    ensures Mismatches(acks, acks[i].peer, i + 1, j + 1) >= MISMATCH_THRESHOLD
    decreases j - i
  {
    hide Syncs, Mismatches;
    if k :| i < k < j && acks[k].peer == acks[i].peer && Syncs(acks, k) {
      SyncsSpaced(acks, k, j);
      MismatchesGrow(acks, acks[i].peer, i + 1, k + 1, j + 1);
    } else {
      AdjacentSyncs(acks, i, j);
    }
  }

  /** After a matching digest the count starts again from nothing. */
  lemma {:induction false} SinceMatch(acks: seq<Ack>, k: nat, j: nat)
    requires k < j <= |acks| && acks[k].verdict.Same?
    ensures StreakOf(Streaks(acks[..j]), acks[k].peer).consecutive <= Mismatches(acks, acks[k].peer, k + 1, j)
    decreases j
  {
    hide Streaks, Fires;
    var peer, a := acks[k].peer, acks[j - 1];
    StreaksNext(acks, j - 1);
    if j > k + 1 {
      SinceMatch(acks, k, j - 1);
      if a.verdict.Differs? { AfterMismatch(Streaks(acks[..j - 1]), a); }
      if a.peer != peer || a.verdict.Nothing? { AfterAckElsewhere(Streaks(acks[..j - 1]), a, peer); }
    }
  }

  lemma {:induction false} SomeMismatch(acks: seq<Ack>, peer: string, lo: nat, hi: nat) returns (m: nat)
    requires lo <= hi <= |acks| && Mismatches(acks, peer, lo, hi) > 0
    ensures lo <= m < hi && acks[m].peer == peer && acks[m].verdict.Differs?
    decreases hi
  {
    if acks[hi - 1].peer == peer && acks[hi - 1].verdict.Differs? {
      m := hi - 1;
    } else {
      m := SomeMismatch(acks, peer, lo, hi - 1);
    }
  }

  /** Four acks take at least three ticks. */
  lemma FourAcks(acks: seq<Ack>, i: nat, j: nat)
    requires InOrder(acks) && i + 3 <= j < |acks|
    ensures acks[j].tick >= acks[i].tick + 2
  {
    var t := acks[i].tick;
    assert acks[i + 2].tick != t && acks[i + 3].tick != acks[i + 1].tick;
    assert acks[i + 3].tick <= acks[j].tick;
  }

  /** The acks of this peer are all handled on different ticks. */
  ghost predicate OnePerTick(acks: seq<Ack>, peer: string) {
    forall i, j | 0 <= i < j < |acks| && acks[i].peer == acks[j].peer == peer :: acks[i].tick < acks[j].tick
  }

  /**
   Any two syncs with one peer, a matching digest between them or not, are at least
   two ticks apart, and three where the peer answers once a tick.
   */
  lemma SyncsAlwaysApart(acks: seq<Ack>, i: nat, j: nat)
    requires InOrder(acks) && i < j < |acks| && acks[i].peer == acks[j].peer && Syncs(acks, i) && Syncs(acks, j)
    ensures acks[j].tick >= acks[i].tick + 2
    ensures OnePerTick(acks, acks[i].peer) ==> acks[j].tick >= acks[i].tick + 3
  {
    hide Streaks, Mismatches, InOrder;
    var peer := acks[i].peer;
    if NoMatch(acks, peer, i, j) {
      SyncsSpaced(acks, i, j);
    } else {
      var k :| i < k < j && acks[k].peer == peer && acks[k].verdict.Same?;
      SinceMatch(acks, k, j);
      var m := SomeMismatch(acks, peer, k + 1, j);
      FourAcks(acks, i, j);
    }
  }

  /** One peer answering once a tick: two mismatches, a match, two mismatches. */
  function MatchBetween(peer: string, t: nat): seq<Ack> {
    [Ack(t, peer, Differs), Ack(t + 1, peer, Differs), Ack(t + 2, peer, Same), Ack(t + 3, peer, Differs),
     Ack(t + 4, peer, Differs)]
  }

  lemma MatchBetweenStreaks(peer: string, t: nat)
    ensures
      var acks := MatchBetween(peer, t);
      && Streaks(acks[..1]) == map[peer := Streak(1, 0)] && Streaks(acks[..2]) == map[peer := Streak(0, t + 1)]
      && Streaks(acks[..3]) == map[] && Streaks(acks[..4]) == map[peer := Streak(1, 0)]
  {
    var acks := MatchBetween(peer, t);
    assert Streaks(acks[..0]) == map[];
    StreaksNext(acks, 0);
    StreaksNext(acks, 1);
    StreaksNext(acks, 2);
    assert Streaks(acks[..3]) == map[];
    StreaksNext(acks, 3);
  }

  /**
   A matching digest forgets the cooldown with the streak: with a peer that answers
   once a tick, a sync, a match and two mismatches, the next sync comes after three.
   */
  lemma MatchForgetsCooldown(peer: string, t: nat)
    requires t >= 1
    ensures
      var acks := MatchBetween(peer, t);
      && InOrder(acks) && OnePerTick(acks, peer) && Syncs(acks, 1) && Syncs(acks, 4)
      && acks[4].tick == acks[1].tick + 3
  {
    hide Streaks;
    MatchBetweenStreaks(peer, t);
  }

  /** The same peer, found dead and answering its probe on the tick it is next pinged. */
  function ProbedAndPinged(peer: string, t: nat): seq<Ack> {
    [Ack(t, peer, Differs), Ack(t + 1, peer, Differs), Ack(t + 2, peer, Same), Ack(t + 3, peer, Differs),
     Ack(t + 3, peer, Differs)]
  }

  lemma ProbedAndPingedStreaks(peer: string, t: nat)
    ensures
      var acks := ProbedAndPinged(peer, t);
      Streaks(acks[..1]) == map[peer := Streak(1, 0)] && Streaks(acks[..4]) == map[peer := Streak(1, 0)]
  {
    var acks := ProbedAndPinged(peer, t);
    assert Streaks(acks[..0]) == map[];
    StreaksNext(acks, 0);
    StreaksNext(acks, 1);
    StreaksNext(acks, 2);
    assert Streaks(acks[..3]) == map[];
    StreaksNext(acks, 3);
  }

  /** Two answers on a probing tick bring the next sync after two ticks, the least there can be. */
  lemma TwoTicksAttained(peer: string, t: nat)
    requires t >= 1 && (t + 3) % DEAD_PROBE_EVERY == 0
    ensures
      var acks := ProbedAndPinged(peer, t);
      InOrder(acks) && Syncs(acks, 1) && Syncs(acks, 4) && acks[4].tick == acks[1].tick + 2
  {
    hide Streaks;
    ProbedAndPingedStreaks(peer, t);
  }

  // -------------------------------------------------------------------------
  // The thread's counters
  // -------------------------------------------------------------------------

  class Prober {
    var tickCount: nat
    var idx: nat
    var mismatch: map<string, Streak>

    constructor ()
      ensures tickCount == 0 && idx == 0 && mismatch == Streaks([])
    {
      tickCount, idx, mismatch := 0, 0, map[];
    }

    /** `tick`: a retired node only counts. */
    method Tick(left: bool, dead: seq<string>, alive: seq<string>) returns (turn: Turn)
      modifies this
      ensures tickCount == old(tickCount) + 1 && mismatch == old(mismatch)
      ensures turn == if left then Turn(None, None) else TurnAt(old(tickCount), old(idx), dead, alive, 0)
      ensures idx == if left || alive == [] then old(idx) else old(idx) + 1
      ensures turn.probe == if left || tickCount % 5 != 0 || dead == [] then None
                            else Some(dead[tickCount / 5 % |dead|])
      ensures turn.ping == if left || alive == [] then None else Some(alive[old(idx) % |alive|])
    {
      tickCount := tickCount + 1;
      turn := Turn(None, None);
      if left { return; }
      if tickCount % DEAD_PROBE_EVERY == 0 && dead != [] {
        turn := turn.(probe := Some(dead[tickCount / DEAD_PROBE_EVERY % |dead|]));
      }
      if alive == [] { return; }
      turn := turn.(ping := Some(alive[idx % |alive|]));
      idx := idx + 1;
    }

    /** Any number of ticks with the two lists as they are. */
    method Ticks(n: nat, dead: seq<string>, alive: seq<string>) returns (turns: seq<Turn>)
      modifies this
      ensures |turns| == n && forall i | 0 <= i < n :: turns[i] == TurnAt(old(tickCount), old(idx), dead, alive, i)
      ensures tickCount == old(tickCount) + n
    {
      turns := [];
      for i := 0 to n
        invariant |turns| == i && tickCount == old(tickCount) + i
        invariant idx == if alive == [] then old(idx) else old(idx) + i
        invariant forall k | 0 <= k < i :: turns[k] == TurnAt(old(tickCount), old(idx), dead, alive, k)
      {
        var turn := Tick(false, dead, alive);
        turns := turns + [turn];
      }
    }

    /** `maybeSync`: whether this ack starts a sync, given all acks handled before it. */
    method MaybeSync(peer: string, field: string, own: nat, ghost before: seq<Ack>) returns (sync: bool)
      requires mismatch == Streaks(before)
      modifies this
      ensures tickCount == old(tickCount) && idx == old(idx)
      ensures
        var acks := before + [Ack(tickCount, peer, Judge(field, own))];
        mismatch == Streaks(acks) && sync == Syncs(acks, |before|)
      ensures field == "" || Stoull(field).None? ==> !sync && mismatch == old(mismatch)
      ensures field != "" && Stoull(field) == Some(own) ==> !sync && mismatch == old(mismatch) - {peer}
      ensures field != "" && Stoull(field).Some? && Stoull(field).value != own ==>
                var n := if peer in old(mismatch) then old(mismatch)[peer].consecutive + 1 else 1;
                var last := if peer in old(mismatch) then old(mismatch)[peer].lastSync else 0;
                && (sync <==> n >= 2 && (last == 0 || tickCount - last >= 10))
                && mismatch == old(mismatch)[peer := if sync then Streak(0, tickCount) else Streak(n, last)]
    {
      hide Stoull;
      ghost var a := Ack(tickCount, peer, Judge(field, own));
      assert (before + [a])[..|before|] == before;
      if field == "" { return false; }
      var theirs := Stoull(field);
      if theirs.None? { return false; }
      if theirs.value == own {
        mismatch := mismatch - {peer};
        return false;
      }
      var m := if peer in mismatch then mismatch[peer] else Streak(0, 0);
      m := m.(consecutive := m.consecutive + 1);
      mismatch := mismatch[peer := m];
      if m.consecutive < MISMATCH_THRESHOLD { return false; }
      if m.lastSync != 0 && tickCount - m.lastSync < SYNC_COOLDOWN { return false; }
      mismatch := mismatch[peer := Streak(0, tickCount)];
      return true;
    }
  }
}
