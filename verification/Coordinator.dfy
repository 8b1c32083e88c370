/**
 The request coordinator: reconciling read responses, repairing stale replicas,
 choosing where copies of a write go, and counting its acknowledgements.
 */
module Coordinator {
  import opened Text
  import opened Orders
  import opened Base64
  import opened Clocks
  import opened Versions
  import opened Replica

  /** One replica's answer: its version, or None when it does not have the key. */
  datatype Resp = Resp(peer: string, found: Option<Version>)

  // -------------------------------------------------------------------------
  // Reconciliation
  // -------------------------------------------------------------------------

  function Found(responses: seq<Resp>): seq<Version> {
    if responses == [] then []
    else Found(responses[..|responses| - 1]) +
         (var r := responses[|responses| - 1]; if r.found.Some? then [r.found.value] else [])
  }

  lemma {:induction false} FoundIff(responses: seq<Resp>, v: Version)
    ensures v in Found(responses) <==> exists r :: r in responses && r.found == Some(v)
    decreases |responses|
  {
    if responses != [] {
      var init, last := responses[..|responses| - 1], responses[|responses| - 1];
      FoundIff(init, v);
      assert forall r :: r in responses <==> r in init || r == last;
    }
  }

  ghost predicate Dominated(v: Version, found: seq<Version>) {
    exists u :: u in found && Order(u.clock, v.clock) == ADominates
  }

  /** `m` lists one version for each clock in `found` that no other clock there strictly dominates. */
  ghost predicate IsMaximalList(found: seq<Version>, m: seq<Version>) {
    && (forall x | x in m :: x in found && !Dominated(x, found))
    && (forall i, j | 0 <= i < j < |m| :: Order(m[i].clock, m[j].clock) != Equal)
    && (forall v {:trigger Represented(v, m)} | v in found :: Dominated(v, found) || Represented(v, m))
  }

  ghost predicate Represented(v: Version, m: seq<Version>) {
    exists x :: x in m && Order(x.clock, v.clock) == Equal
  }

  /** Two different entries of a maximal list are concurrent siblings. */
  lemma MaximalAreConcurrent(found: seq<Version>, m: seq<Version>)
    requires IsMaximalList(found, m)
    ensures forall i, j | 0 <= i < j < |m| :: Order(m[i].clock, m[j].clock) == Concurrent
  {
    forall i, j | 0 <= i < j < |m| ensures Order(m[i].clock, m[j].clock) == Concurrent {
      assert m[i] in m && m[j] in m;
      assert Order(m[j].clock, m[i].clock) != ADominates && Order(m[i].clock, m[j].clock) != ADominates;
    }
  }

  ghost function Above(found: seq<Version>, v: Version): set<Version> {
    set u | u in found && Order(u.clock, v.clock) == ADominates
  }

  /** Nothing found is lost: every version is equal to or dominated by a returned one. */
  lemma {:induction false} MaximalCovers(found: seq<Version>, m: seq<Version>, v: Version)
    requires IsMaximalList(found, m) && v in found
    ensures exists x :: x in m && Leq(v.clock, x.clock)
    decreases |Above(found, v)|
  {
    if !Dominated(v, found) {
      assert Represented(v, m);
    } else {
      var u :| u in found && Order(u.clock, v.clock) == ADominates;
      forall t | t in Above(found, u) ensures t in Above(found, v) {
        OrderIsPartialOrder(t.clock, u.clock, v.clock);
      }
      assert u in Above(found, v) && u !in Above(found, u);
      SubsetSize(Above(found, u), Above(found, v));
      MaximalCovers(found, m, u);
      var x :| x in m && Leq(u.clock, x.clock);
      LeqTrans(v.clock, u.clock, x.clock);
    }
  }

  lemma MaximalEmptyIff(found: seq<Version>, m: seq<Version>)
    requires IsMaximalList(found, m)
    ensures m == [] <==> found == []
  {
    if found != [] { MaximalCovers(found, m, found[0]); }
    if m != [] { assert m[0] in m; }
  }

  ghost function ClockSet(m: seq<Version>): set<map<string, nat>> {
    set x | x in m :: Counts(x.clock)
  }

  /** The set of returned histories depends only on which versions were found, not on the response order. */
  lemma MaximalOrderFree(f: seq<Version>, g: seq<Version>, m: seq<Version>, n: seq<Version>)
    requires IsMaximalList(f, m) && IsMaximalList(g, n) && Elements(f) == Elements(g)
    ensures ClockSet(m) == ClockSet(n) && |m| == |n|
  {
    MaximalClocksIn(f, g, m, n);
    MaximalClocksIn(g, f, n, m);
    ClockSetSize(m);
    ClockSetSize(n);
  }

  lemma MaximalClocksIn(f: seq<Version>, g: seq<Version>, m: seq<Version>, n: seq<Version>)
    requires IsMaximalList(f, m) && IsMaximalList(g, n) && Elements(f) == Elements(g)
    ensures ClockSet(m) <= ClockSet(n)
    ensures forall i, j | 0 <= i < j < |m| :: Counts(m[i].clock) != Counts(m[j].clock)
  {
    assert forall v :: v in f <==> v in Elements(f);
    assert forall v :: v in g <==> v in Elements(g);
    forall c | c in ClockSet(m) ensures c in ClockSet(n) {
      var x :| x in m && c == Counts(x.clock);
      assert x in g && !Dominated(x, g);
      assert Represented(x, n);
      var y :| y in n && Order(y.clock, x.clock) == Equal;
      EqualMeansSameCounts(y.clock, x.clock);
    }
    forall i, j | 0 <= i < j < |m| ensures Counts(m[i].clock) != Counts(m[j].clock) {
      EqualMeansSameCounts(m[i].clock, m[j].clock);
    }
  }

  lemma {:induction false} ClockSetSize(m: seq<Version>)
    requires forall i, j | 0 <= i < j < |m| :: Counts(m[i].clock) != Counts(m[j].clock)
    ensures |ClockSet(m)| == |m|
    decreases |m|
  {
    if m != [] {
      ClockSetSize(m[1..]);
      assert ClockSet(m) == {Counts(m[0].clock)} + ClockSet(m[1..]);
      assert Counts(m[0].clock) !in ClockSet(m[1..]);
    }
  }

  method MaximalVersions(responses: seq<Resp>) returns (maximal: seq<Version>)
    requires forall r | r in responses && r.found.Some? :: ZeroFree(r.found.value.clock)
    ensures IsMaximalList(Found(responses), maximal) && FirstSeen(Found(responses), maximal)
  {
    var found := CollectFound(responses);
    forall v | v in found ensures ZeroFree(v.clock) { FoundIff(responses, v); }
    maximal := [];
    for i := 0 to |found|
      invariant MaximalSoFar(found, i, maximal) && FirstSeen(found, maximal)
    {
      var cand := found[i];
      var dominated := IsDominated(found, cand);
      var duplicate := false;
      if !dominated { duplicate := HasEqual(maximal, cand); }
      MaximalOneMore(found, i, maximal, dominated, duplicate);
      if !dominated && !duplicate { NewClock(found, i, maximal); }
      if !dominated && !duplicate { maximal := maximal + [cand]; }
    }
    assert forall v | v in found :: exists k :: 0 <= k < |found| && found[k] == v;
  }

  method CollectFound(responses: seq<Resp>) returns (found: seq<Version>)
    ensures found == Found(responses)
  {
    found := [];
    for i := 0 to |responses|
      invariant found == Found(responses[..i])
    {
      assert responses[..i + 1][..i] == responses[..i];
      if responses[i].found.Some? { found := found + [responses[i].found.value]; }
    }
    assert responses[..|responses|] == responses;
  }

  /** Of several versions with one clock, the list has the one that came first. */
  ghost predicate FirstSeen(found: seq<Version>, m: seq<Version>) {
    forall x | x in m :: Earliest(found, x)
  }

  ghost predicate Earliest(found: seq<Version>, x: Version) {
    exists i :: 0 <= i < |found| && found[i] == x && forall k | 0 <= k < i :: Order(found[k].clock, x.clock) != Equal
  }

  /** A candidate that is neither dominated nor listed has a clock not seen before. */
  lemma NewClock(found: seq<Version>, i: nat, m: seq<Version>)
    requires i < |found| && MaximalSoFar(found, i, m) && !Dominated(found[i], found) && !Represented(found[i], m)
    ensures Earliest(found, found[i])
  {
    forall k | 0 <= k < i ensures Order(found[k].clock, found[i].clock) != Equal {
      if Order(found[k].clock, found[i].clock) == Equal {
        if u :| u in found && Order(u.clock, found[k].clock) == ADominates {
          OrderIsPartialOrder(u.clock, found[k].clock, found[i].clock);
        }
        assert Represented(found[k], m);
        var x :| x in m && Order(x.clock, found[k].clock) == Equal;
        OrderIsPartialOrder(x.clock, found[k].clock, found[i].clock);
      }
    }
  }

  /** What the selection loop knows after its first `k` candidates. */
  ghost predicate MaximalSoFar(found: seq<Version>, k: nat, m: seq<Version>)
    requires k <= |found|
  {
    && (forall x | x in m :: x in found && !Dominated(x, found))
    && (forall i, j | 0 <= i < j < |m| :: Order(m[i].clock, m[j].clock) != Equal)
    && (forall i {:trigger Represented(found[i], m)} | 0 <= i < k ::
          Dominated(found[i], found) || Represented(found[i], m))
  }

  lemma MaximalOneMore(found: seq<Version>, k: nat, m: seq<Version>, dominated: bool, duplicate: bool)
    requires k < |found| && MaximalSoFar(found, k, m)
    requires dominated <==> Dominated(found[k], found)
    requires !dominated ==> (duplicate <==> Represented(found[k], m))
    ensures MaximalSoFar(found, k + 1, if !dominated && !duplicate then m + [found[k]] else m)
  {
    hide Dominated, Order, Represented;
    if !dominated && !duplicate {
      RepresentedGrows(m, found[k]);
      UnlikeAll(m, found[k]);
      var n := m + [found[k]];
      forall i | 0 <= i < k + 1 ensures Dominated(found[i], found) || Represented(found[i], n) {
        assert i < k ==> Dominated(found[i], found) || Represented(found[i], m);
      }
    }
  }

  lemma UnlikeAll(m: seq<Version>, v: Version)
    requires !Represented(v, m) && forall i, j | 0 <= i < j < |m| :: Order(m[i].clock, m[j].clock) != Equal
    ensures
      var n := m + [v];
      forall i, j | 0 <= i < j < |n| :: Order(n[i].clock, n[j].clock) != Equal
  {
    hide Order;
    var n := m + [v];
    forall i, j | 0 <= i < j < |n| ensures Order(n[i].clock, n[j].clock) != Equal {
      if j == |m| { assert m[i] in m; }
    }
  }

  lemma RepresentedGrows(m: seq<Version>, cand: Version)
    ensures forall v | Represented(v, m) :: Represented(v, m + [cand])
    ensures Represented(cand, m + [cand])
  {
    forall v | Represented(v, m) ensures Represented(v, m + [cand]) {
      var x :| x in m && Order(x.clock, v.clock) == Equal;
      assert x in m + [cand];
    }
    assert cand in m + [cand] && Order(cand.clock, cand.clock) == Equal;
  }

  /** The inner scan for a strictly newer response. */
  method IsDominated(found: seq<Version>, cand: Version) returns (dominated: bool)
    requires ZeroFree(cand.clock) && forall v | v in found :: ZeroFree(v.clock)
    ensures dominated <==> Dominated(cand, found)
  {
    for i := 0 to |found|
      invariant forall k | 0 <= k < i :: Order(found[k].clock, cand.clock) != ADominates
    {
      var o := VectorClock.Compare(found[i].clock, cand.clock);
      if o == ADominates { return true; }
    }
    return false;
  }

  /** The inner scan for a clock already listed. */
  method HasEqual(maximal: seq<Version>, cand: Version) returns (duplicate: bool)
    requires ZeroFree(cand.clock) && forall v | v in maximal :: ZeroFree(v.clock)
    ensures duplicate <==> Represented(cand, maximal)
  {
    for i := 0 to |maximal|
      invariant forall k | 0 <= k < i :: Order(maximal[k].clock, cand.clock) != Equal
    {
      var o := VectorClock.Compare(maximal[i].clock, cand.clock);
      if o == Equal { return true; }
    }
    return false;
  }

  // -------------------------------------------------------------------------
  // Reads and read repair
  // -------------------------------------------------------------------------

  datatype GetResult = Ok(value: Version) | Siblings(values: seq<Version>) | NotFound | Error(reason: string)

  predicate Stale(r: Resp, dominant: Version) {
    r.found.None? || Order(dominant.clock, r.found.value.clock) == ADominates
  }

  /** The responders a read with this maximal list repairs. */
  function Repairs(responses: seq<Resp>, m: seq<Version>): seq<(string, Version)> {
    if responses == [] || |m| != 1 then []
    else
      var r := responses[|responses| - 1];
      Repairs(responses[..|responses| - 1], m) + if Stale(r, m[0]) then [(r.peer, m[0])] else []
  }

  /** What the client is told once at least R responses are in. */
  function Answer(m: seq<Version>): GetResult {
    if m == [] then NotFound
    else if |m| > 1 then Siblings(m)
    else if m[0].deleted then NotFound
    else Ok(m[0])
  }

  /** Two found versions, neither beaten by any other, that do not know of each other. */
  ghost predicate Conflicting(found: seq<Version>) {
    exists u, v :: Rivals(found, u, v)
  }

  ghost predicate Rivals(found: seq<Version>, u: Version, v: Version) {
    u in found && v in found && !Dominated(u, found) && !Dominated(v, found) && Order(u.clock, v.clock) == Concurrent
  }

  /** The version is at least as new as everything found. */
  ghost predicate Newest(found: seq<Version>, w: Version) {
    w in found && forall v | v in found :: Leq(v.clock, w.clock)
  }

  /** What a result says about the versions found. */
  ghost predicate Tells(found: seq<Version>, result: GetResult) {
    && !result.Error?
    && (result.Siblings? <==> Conflicting(found))
    && (result.Siblings? ==>
          && (forall x | x in result.values :: x in found && !Dominated(x, found))
          && (forall v | v in found && !Dominated(v, found) :: Represented(v, result.values)))
    && (result.Ok? ==> Newest(found, result.value) && !result.value.deleted)
    && (result.NotFound? && found != [] ==> exists w :: Newest(found, w) && w.deleted)
  }

  lemma TwoConflict(found: seq<Version>, m: seq<Version>)
    requires IsMaximalList(found, m) && |m| > 1
    ensures Conflicting(found)
  {
    hide Order, Dominated, Represented;
    MaximalAreConcurrent(found, m);
    assert m[0] in m && m[1] in m;
    assert Rivals(found, m[0], m[1]);
  }

  lemma RivalsDiffer(u: Clock, v: Clock, x: Clock)
    requires Order(u, v) == Concurrent && Order(x, u) == Equal
    ensures Order(x, v) != Equal
  {
    OrderIsPartialOrder(u, x, v);
    OrderIsPartialOrder(x, u, x);
  }

  lemma ConflictTwo(found: seq<Version>, m: seq<Version>)
    requires IsMaximalList(found, m) && Conflicting(found)
    ensures |m| > 1
  {
    hide Order, Dominated;
    var u, v :| Rivals(found, u, v);
    assert Represented(u, m) && Represented(v, m);
    var x :| x in m && Order(x.clock, u.clock) == Equal;
    var y :| y in m && Order(y.clock, v.clock) == Equal;
    RivalsDiffer(u.clock, v.clock, x.clock);
    var i :| 0 <= i < |m| && m[i] == x;
    var j :| 0 <= j < |m| && m[j] == y;
    assert i != j;
  }

  lemma ConflictIff(found: seq<Version>, m: seq<Version>)
    requires IsMaximalList(found, m)
    ensures Conflicting(found) <==> |m| > 1
  {
    hide IsMaximalList, Conflicting;
    if |m| > 1 { TwoConflict(found, m); }
    if Conflicting(found) { ConflictTwo(found, m); }
  }

  lemma SingleIsNewest(found: seq<Version>, m: seq<Version>)
    requires IsMaximalList(found, m) && |m| == 1
    ensures Newest(found, m[0])
  {
    assert m[0] in m;
    forall v | v in found ensures Leq(v.clock, m[0].clock) { MaximalCovers(found, m, v); }
  }

  /** The answer a client gets tells the truth about the versions found. */
  lemma AnswerTells(found: seq<Version>, m: seq<Version>)
    requires IsMaximalList(found, m)
    ensures Tells(found, Answer(m))
  {
    hide Dominated, Newest, Conflicting, Represented;
    ConflictIff(found, m);
    MaximalEmptyIff(found, m);
    if |m| == 1 { SingleIsNewest(found, m); }
  }

  method CoordinateGet(responses: seq<Resp>, need: int)
    returns (result: GetResult, repairs: seq<(string, Version)>, ghost m: seq<Version>)
    requires forall r | r in responses && r.found.Some? :: ZeroFree(r.found.value.clock)
    ensures |responses| < need ==> result == Error("quorum_not_met") && repairs == []
    ensures |responses| >= need ==>
      IsMaximalList(Found(responses), m) && FirstSeen(Found(responses), m) &&
      result == Answer(m) && repairs == Repairs(responses, m)
    ensures |responses| >= need ==> Tells(Found(responses), result)
    ensures forall p | p in repairs ::
              Newest(Found(responses), p.1) && exists r :: r in responses && r.peer == p.0 && Behind(r, p.1)
    ensures |responses| >= need && !Conflicting(Found(responses)) ==>
              forall r | r in responses && IsBehind(r, Found(responses)) :: exists v :: (r.peer, v) in repairs
  {
    hide Tells, Newest, Conflicting, IsMaximalList, FirstSeen, Dominated, Found;
    repairs, m := [], [];
    if |responses| < need { return Error("quorum_not_met"), [], []; }
    var maximal := MaximalVersions(responses);
    m := maximal;
    AnswerTells(Found(responses), m);
    RepairsMean(responses, m);
    MaximalZeroFree(responses, m);
    if |maximal| == 0 { return NotFound, [], m; }
    if |maximal| > 1 { return Siblings(maximal), [], m; }
    var dominant := maximal[0];
    for i := 0 to |responses|
      invariant repairs == Repairs(responses[..i], m)
    {
      var r := responses[i];
      assert responses[..i + 1][..i] == responses[..i];
      var stale := r.found.None?;
      if !stale {
        var o := VectorClock.Compare(dominant.clock, r.found.value.clock);
        stale := o == ADominates;
      }
      if stale { repairs := repairs + [(r.peer, dominant)]; }
    }
    assert responses[..|responses|] == responses;
    result := if dominant.deleted then NotFound else Ok(dominant);
  }

  /** The responder has no copy, or one the version strictly dominates. */
  predicate Behind(r: Resp, v: Version) {
    r.found.None? || Order(v.clock, r.found.value.clock) == ADominates
  }

  /** Something found is strictly newer than what the responder has. */
  ghost predicate IsBehind(r: Resp, found: seq<Version>) {
    found != [] && (r.found.None? || Dominated(r.found.value, found))
  }

  lemma {:induction false} RepairsReach(responses: seq<Resp>, m: seq<Version>, r: Resp)
    requires |m| == 1 && r in responses && Behind(r, m[0])
    ensures (r.peer, m[0]) in Repairs(responses, m)
    decreases |responses|
  {
    if r != responses[|responses| - 1] { RepairsReach(responses[..|responses| - 1], m, r); }
  }

  lemma DominatedBySingle(found: seq<Version>, m: seq<Version>, v: Version)
    requires IsMaximalList(found, m) && |m| == 1 && Dominated(v, found)
    ensures Order(m[0].clock, v.clock) == ADominates
  {
    SingleIsNewest(found, m);
    var u :| u in found && Order(u.clock, v.clock) == ADominates;
    LeqTrans(v.clock, u.clock, m[0].clock);
    if Leq(m[0].clock, v.clock) { LeqTrans(u.clock, m[0].clock, v.clock); }
  }

  /** Repairs carry the newest version, to responders behind it, and without a conflict to all that are behind. */
  lemma RepairsMean(responses: seq<Resp>, m: seq<Version>)
    requires IsMaximalList(Found(responses), m)
    ensures forall p | p in Repairs(responses, m) ::
              Newest(Found(responses), p.1) && exists r :: r in responses && r.peer == p.0 && Behind(r, p.1)
    ensures !Conflicting(Found(responses)) ==>
              forall r | r in responses && IsBehind(r, Found(responses)) ::
                exists v :: (r.peer, v) in Repairs(responses, m)
  {
    hide IsMaximalList, Newest, Conflicting, Dominated, Found, Repairs;
    var found := Found(responses);
    ConflictIff(found, m);
    MaximalEmptyIff(found, m);
    if |m| == 1 { SingleIsNewest(found, m); }
    forall p | p in Repairs(responses, m)
      ensures Newest(found, p.1) && exists r :: r in responses && r.peer == p.0 && Behind(r, p.1)
    {
      RepairsAreStale(responses, m, p);
      var r :| r in responses && r.peer == p.0 && Stale(r, m[0]);
      assert Behind(r, p.1);
    }
    if !Conflicting(found) {
      forall r | r in responses && IsBehind(r, found) ensures exists v :: (r.peer, v) in Repairs(responses, m) {
        if r.found.Some? { DominatedBySingle(found, m, r.found.value); }
        RepairsReach(responses, m, r);
      }
    }
  }

  lemma MaximalZeroFree(responses: seq<Resp>, m: seq<Version>)
    requires forall r | r in responses && r.found.Some? :: ZeroFree(r.found.value.clock)
    requires IsMaximalList(Found(responses), m)
    ensures forall v | v in m :: ZeroFree(v.clock)
  {
    forall v | v in m ensures ZeroFree(v.clock) { FoundIff(responses, v); }
  }

  /** The responder's copy once its repair, if any, has landed on the copy it answered with. */
  function AfterRepair(r: Resp, m: seq<Version>): Resp {
    if |m| == 1 && Stale(r, m[0]) then r.(found := Some(Replicated(r.found, m[0]))) else r
  }

  function AfterRepairs(responses: seq<Resp>, m: seq<Version>): seq<Resp> {
    seq(|responses|, i requires 0 <= i < |responses| => AfterRepair(responses[i], m))
  }

  /** A local repair overwrites outright; on an undisturbed stale copy that is the replica rule. */
  lemma LocalRepairIsReplication(r: Resp, dominant: Version)
    requires Stale(r, dominant)
    ensures Replicated(r.found, dominant) == dominant
  {
  }

  /**
   Read repair reaches its fixpoint in one round: with a single maximal version
   every responder then holds its history, so reading the same responders again
   returns that history and repairs nobody.  With siblings nothing changes.
   */
  lemma RepairReachesFixpoint(responses: seq<Resp>, m: seq<Version>, again: seq<Version>)
    requires IsMaximalList(Found(responses), m)
    requires IsMaximalList(Found(AfterRepairs(responses, m)), again)
    ensures |m| == 1 ==> forall r | r in AfterRepairs(responses, m) ::
              r.found.Some? && Order(r.found.value.clock, m[0].clock) == Equal
    ensures |m| == 1 ==> |again| == 1 && Order(again[0].clock, m[0].clock) == Equal
    ensures |m| != 1 ==> AfterRepairs(responses, m) == responses
    ensures Repairs(AfterRepairs(responses, m), again) == []
  {
    var after := AfterRepairs(responses, m);
    if |m| == 1 {
      forall r | r in after ensures r.found.Some? && Order(r.found.value.clock, m[0].clock) == Equal {
        var i :| 0 <= i < |responses| && r == AfterRepair(responses[i], m);
        RepairedEqual(responses, m, responses[i]);
      }
      forall v | v in Found(after) ensures Order(v.clock, m[0].clock) == Equal { FoundIff(after, v); }
      RereadIsSingle(responses, m, again);
      NoRepairs(after, again);
    } else {
      assert after == responses;
      if |again| == 1 { MaximalOrderFree(Found(responses), Found(responses), m, again); }
    }
  }

  lemma RepairedEqual(responses: seq<Resp>, m: seq<Version>, r: Resp)
    requires IsMaximalList(Found(responses), m) && |m| == 1 && r in responses
    ensures
      var a := AfterRepair(r, m);
      a.found.Some? && Order(a.found.value.clock, m[0].clock) == Equal
  {
    assert Order(m[0].clock, m[0].clock) == Equal;
    if Stale(r, m[0]) {
      LocalRepairIsReplication(r, m[0]);
    } else {
      var v := r.found.value;
      FoundIff(responses, v);
      MaximalCovers(Found(responses), m, v);
    }
  }

  lemma RereadIsSingle(responses: seq<Resp>, m: seq<Version>, again: seq<Version>)
    requires |m| == 1 && IsMaximalList(Found(responses), m)
    requires IsMaximalList(Found(AfterRepairs(responses, m)), again)
    requires forall v | v in Found(AfterRepairs(responses, m)) :: Order(v.clock, m[0].clock) == Equal
    ensures |again| == 1 && Order(again[0].clock, m[0].clock) == Equal
  {
    WinnerStays(responses, m);
    AllEqualIsSingle(Found(AfterRepairs(responses, m)), again, m[0]);
  }

  /** The responder that answered with the winner keeps it. */
  lemma WinnerStays(responses: seq<Resp>, m: seq<Version>)
    requires |m| == 1 && IsMaximalList(Found(responses), m)
    ensures m[0] in Found(AfterRepairs(responses, m))
  {
    assert m[0] in m;
    FoundIff(responses, m[0]);
    var r :| r in responses && r.found == Some(m[0]);
    var i :| 0 <= i < |responses| && responses[i] == r;
    assert AfterRepair(r, m) == r && AfterRepairs(responses, m)[i] == r;
    FoundIff(AfterRepairs(responses, m), m[0]);
  }

  lemma AllEqualIsSingle(found: seq<Version>, m: seq<Version>, v: Version)
    requires IsMaximalList(found, m) && found != [] && forall u | u in found :: Order(u.clock, v.clock) == Equal
    ensures |m| == 1 && Order(m[0].clock, v.clock) == Equal
  {
    MaximalEmptyIff(found, m);
    assert m[0] in m;
    if |m| > 1 {
      assert m[1] in m;
      OrderIsPartialOrder(m[0].clock, v.clock, m[1].clock);
      assert false;
    }
  }

  /** A repair carries the single maximal version to a responder that was behind it. */
  lemma {:induction false} RepairsAreStale(responses: seq<Resp>, m: seq<Version>, p: (string, Version))
    requires p in Repairs(responses, m)
    ensures |m| == 1 && p.1 == m[0] && exists r :: r in responses && r.peer == p.0 && Stale(r, m[0])
    decreases |responses|
  {
    var init, last := responses[..|responses| - 1], responses[|responses| - 1];
    if p in Repairs(init, m) {
      RepairsAreStale(init, m, p);
    } else {
      assert last in responses && last.peer == p.0 && Stale(last, m[0]);
    }
  }

  lemma {:induction false} NoRepairs(responses: seq<Resp>, m: seq<Version>)
    requires |m| == 1
    requires forall r | r in responses :: r.found.Some? && Order(m[0].clock, r.found.value.clock) != ADominates
    ensures Repairs(responses, m) == []
    decreases |responses|
  {
    if responses != [] {
      NoRepairs(responses[..|responses| - 1], m);
      assert responses[|responses| - 1] in responses;
    }
  }

  // -------------------------------------------------------------------------
  // Reading a deleted key
  // -------------------------------------------------------------------------

  /** The version's data encodes to the word that says there is none. */
  predicate Unreadable(v: Version) { Encode(v.data) == NOT_FOUND }

  /** Another replica's answer as it arrives: without the tombstone flag, and nothing at all for an unreadable value. */
  function OverWire(r: Resp): Resp {
    if r.found.None? || Unreadable(r.found.value) then r.(found := None)
    else r.(found := Some(r.found.value.(deleted := false)))
  }

  lemma OverWireIsReply(r: Resp)
    requires r.found.Some? ==> Storable(r.found.value.clock)
    ensures
      var got := OverWire(r).found;
      ReadReply(ReplyMessage(r.found)) == if got.None? then Missing else Value(got.value)
  {
    hide ReadReply, ReplyMessage, Encode;
    if r.found.Some? { ReplyReadIff(r.found.value); } else { ReplyReadIff(Version([], map[], false)); }
  }

  /** What a read has to go on: the reader's own copy first if it is an owner, then the replies. */
  function Gathered(own: seq<Resp>, remote: seq<Resp>): seq<Resp> {
    own + seq(|remote|, i requires 0 <= i < |remote| => OverWire(remote[i]))
  }

  lemma {:induction false} FoundConcat(a: seq<Resp>, b: seq<Resp>)
    ensures Found(a + b) == Found(a) + Found(b)
    decreases |b|
  {
    if b == [] {
      assert a + b == a;
    } else {
      assert (a + b)[..|a + b| - 1] == a + b[..|b| - 1];
      FoundConcat(a, b[..|b| - 1]);
    }
  }

  lemma TombstoneIsOwn(own: seq<Resp>, remote: seq<Resp>, v: Version)
    requires |own| <= 1 && v in Found(Gathered(own, remote)) && v.deleted
    ensures |own| == 1 && own[0].found == Some(v)
  {
    hide Found, Unreadable;
    FoundIff(Gathered(own, remote), v);
    var r :| r in Gathered(own, remote) && r.found == Some(v);
    var i :| 0 <= i < |Gathered(own, remote)| && Gathered(own, remote)[i] == r;
    assert forall k | |own| <= k < |Gathered(own, remote)| :: Gathered(own, remote)[k] == OverWire(remote[k - |own|]);
  }

  lemma OwnComesFirst(own: seq<Resp>, remote: seq<Resp>, v: Version)
    requires |own| == 1 && own[0].found == Some(v)
    ensures |Found(Gathered(own, remote))| > 0 && Found(Gathered(own, remote))[0] == v
  {
    FoundConcat(own, Gathered(own, remote)[1..]);
    assert Gathered(own, remote) == own + Gathered(own, remote)[1..];
    assert own[..0] == [] && Found([]) == [];
    assert Found(own) == [v];
  }

  /** The reader's own copy is a tombstone that no reply is newer than. */
  ghost predicate OwnTombstone(own: seq<Resp>, remote: seq<Resp>) {
    && |own| == 1 && own[0].found.Some? && own[0].found.value.deleted
    && !Dominated(own[0].found.value, Found(Gathered(own, remote)))
  }

  /**
   When a read with a single winner reports the key as deleted: exactly when the
   reader is an owner, its own copy is a tombstone, and no reply is newer.  In every
   other case the winner is handed out as a live value, a tombstone elsewhere included.
   */
  lemma DeletedReadIff(own: seq<Resp>, remote: seq<Resp>, m: seq<Version>)
    requires |own| <= 1 && |m| == 1
    requires
      var found := Found(Gathered(own, remote));
      IsMaximalList(found, m) && FirstSeen(found, m)
    ensures Answer(m) == NotFound <==> OwnTombstone(own, remote)
    ensures !OwnTombstone(own, remote) ==> Answer(m) == Ok(m[0])
  {
    hide Gathered, Found;
    var found := Found(Gathered(own, remote));
    assert m[0] in m;
    if m[0].deleted {
      TombstoneIsOwn(own, remote, m[0]);
    } else if OwnTombstone(own, remote) {
      var v := own[0].found.value;
      OwnComesFirst(own, remote, v);
      assert v in found;
      assert Represented(v, m);
      assert Earliest(found, m[0]);
      OrderIsPartialOrder(v.clock, m[0].clock, v.clock);
    }
  }

  /** No reply has anything to offer: each replica has no copy, or one that cannot be read over the wire. */
  predicate NothingArrives(remote: seq<Resp>) {
    forall r | r in remote :: r.found.None? || Unreadable(r.found.value)
  }

  lemma {:induction false} NoneFound(rs: seq<Resp>)
    requires forall i | 0 <= i < |rs| :: rs[i].found.None?
    ensures Found(rs) == []
    decreases |rs|
  {
    if rs != [] { NoneFound(rs[..|rs| - 1]); }
  }

  lemma NothingFound(remote: seq<Resp>)
    ensures Found(Gathered([], remote)) == [] <==> NothingArrives(remote)
  {
    hide Unreadable, Found;
    var g := Gathered([], remote);
    if NothingArrives(remote) {
      forall i | 0 <= i < |g| ensures g[i].found.None? { assert g[i] == OverWire(remote[i]) && remote[i] in remote; }
      NoneFound(g);
    }
    if r :| r in remote && r.found.Some? && !Unreadable(r.found.value) {
      var i :| 0 <= i < |remote| && remote[i] == r;
      assert g[i] == OverWire(r) && g[i] in g;
      FoundIff(g, OverWire(r).found.value);
    }
  }

  /**
   A read by a node without a copy of its own reports the key as missing exactly when
   no reply has anything to offer: a deletion elsewhere is not reported, and a value
   on every replica is missed if all of them are unreadable.
   */
  lemma MissingReadIff(remote: seq<Resp>, m: seq<Version>)
    requires IsMaximalList(Found(Gathered([], remote)), m)
    ensures Answer(m) == NotFound <==> NothingArrives(remote)
  {
    hide Gathered, Found, Unreadable;
    NothingFound(remote);
    MaximalEmptyIff(Found(Gathered([], remote)), m);
    if m != [] && m[0].deleted {
      assert m[0] in m;
      TombstoneIsOwn([], remote, m[0]);
    }
  }

  /** Every replica holds the key, and a read from elsewhere does not find it. */
  lemma HeldButNotFound(remote: seq<Resp>, m: seq<Version>)
    requires forall r | r in remote :: r.found.Some? && r.found.value.data == [52, 228, 197, 57, 67, 67]
    requires IsMaximalList(Found(Gathered([], remote)), m)
    ensures Answer(m) == NotFound
  {
    hide Gathered, Found, Encode;
    SixBytes();
    MissingReadIff(remote, m);
  }

  // -------------------------------------------------------------------------
  // Writes: where the copies go
  // -------------------------------------------------------------------------

  ghost predicate Distinct(s: seq<string>) {
    forall i, j | 0 <= i < j < |s| :: s[i] != s[j]
  }

  predicate IsDead(owner: string, self: string, alive: string -> bool) {
    owner != self && !alive(owner)
  }

  predicate CanStandIn(c: string, owners: seq<string>, self: string, alive: string -> bool) {
    c != self && c !in owners && alive(c)
  }

  /** The stand-in the coordinator picks: the same one for every dead owner. */
  function StandIn(candidates: seq<string>, owners: seq<string>, self: string, alive: string -> bool): (r: seq<string>)
    ensures |r| <= 1
    ensures r == [] <==> forall c | c in candidates :: !CanStandIn(c, owners, self, alive)
    ensures r != [] ==> r[0] in candidates && CanStandIn(r[0], owners, self, alive)
  {
    if candidates == [] then []
    else if CanStandIn(candidates[0], owners, self, alive) then [candidates[0]]
    else StandIn(candidates[1..], owners, self, alive)
  }

  /** Where one owner's copy is sent. */
  function TargetOf(o: string, self: string, alive: string -> bool, standIn: seq<string>): seq<string> {
    if o == self then [] else if !alive(o) then standIn else [o]
  }

  function Targets(owners: seq<string>, self: string, alive: string -> bool, standIn: seq<string>): seq<string> {
    if owners == [] then []
    else Targets(owners[..|owners| - 1], self, alive, standIn) + TargetOf(owners[|owners| - 1], self, alive, standIn)
  }

  function DeadOwners(owners: seq<string>, self: string, alive: string -> bool): seq<string> {
    if owners == [] then []
    else DeadOwners(owners[..|owners| - 1], self, alive) +
         (var o := owners[|owners| - 1]; if IsDead(o, self, alive) then [o] else [])
  }

  /** A write kept for an owner that was down. */
  datatype Hint = Hint(owner: string, key: string, value: Version)

  function HintsFor(dead: seq<string>, key: string, vv: Version): seq<Hint> {
    seq(|dead|, i requires 0 <= i < |dead| => Hint(dead[i], key, vv))
  }

  /** The owners a copy goes to directly. */
  function LiveOthers(owners: seq<string>, self: string, alive: string -> bool): set<string> {
    set o | o in owners && o != self && alive(o)
  }

  /** The owners a hint is kept for. */
  function DeadOthers(owners: seq<string>, self: string, alive: string -> bool): set<string> {
    set o | o in owners && o != self && !alive(o)
  }

  /** The first candidate that is alive and neither this node nor an owner. */
  ghost predicate IsStandIn(
    c: string, candidates: seq<string>, owners: seq<string>, self: string, alive: string -> bool)
  {
    exists i :: 0 <= i < |candidates| && candidates[i] == c && c != self && c !in owners && alive(c) &&
      forall k | 0 <= k < i :: candidates[k] == self || candidates[k] in owners || !alive(candidates[k])
  }

  /** Where the copies of a write go: every live owner, and for each dead one the stand-in, if there is one. */
  ghost predicate SentRight(
    remotes: seq<string>, candidates: seq<string>, owners: seq<string>, self: string, alive: string -> bool)
  {
    && LiveOthers(owners, self, alive) <= Elements(remotes)
    && (forall r | r in remotes ::
          r in LiveOthers(owners, self, alive) ||
          (DeadOthers(owners, self, alive) != {} && IsStandIn(r, candidates, owners, self, alive)))
    && |remotes| == |LiveOthers(owners, self, alive)| +
                    if exists c :: IsStandIn(c, candidates, owners, self, alive)
                    then |DeadOthers(owners, self, alive)| else 0
  }

  /** Exactly one hint, with the write, for every dead owner. */
  ghost predicate HintedRight(hints: seq<Hint>, key: string, vv: Version, dead: set<string>) {
    |hints| == |dead| && forall h :: h in hints <==> h.owner in dead && h.key == key && h.value == vv
  }

  lemma {:induction false} TargetsReach(
    owners: seq<string>, self: string, alive: string -> bool, standIn: seq<string>, o: string)
    requires o in LiveOthers(owners, self, alive)
    ensures o in Targets(owners, self, alive, standIn)
    decreases |owners|
  {
    if o != owners[|owners| - 1] { TargetsReach(owners[..|owners| - 1], self, alive, standIn, o); }
  }

  lemma {:induction false} DeadAre(owners: seq<string>, self: string, alive: string -> bool)
    requires Distinct(owners)
    ensures Elements(DeadOwners(owners, self, alive)) == DeadOthers(owners, self, alive)
    ensures Distinct(DeadOwners(owners, self, alive))
    decreases |owners|
  {
    if owners != [] {
      var init, o := owners[..|owners| - 1], owners[|owners| - 1];
      DeadAre(init, self, alive);
      var d := DeadOwners(init, self, alive);
      OthersSnoc(owners, self, alive);
      assert o in d <==> o in Elements(d);
      DistinctAppend(d, o);
    }
  }

  lemma OthersSnoc(owners: seq<string>, self: string, alive: string -> bool)
    requires owners != [] && Distinct(owners)
    ensures
      var init, o := owners[..|owners| - 1], owners[|owners| - 1];
      && o !in init && Distinct(init)
      && LiveOthers(owners, self, alive) == LiveOthers(init, self, alive) + (if o != self && alive(o) then {o} else {})
      && DeadOthers(owners, self, alive) == DeadOthers(init, self, alive) + (if o != self && !alive(o) then {o} else {})
  {
    var init, o := owners[..|owners| - 1], owners[|owners| - 1];
    assert owners == init + [o];
  }

  lemma {:induction false} TargetsSize(owners: seq<string>, self: string, alive: string -> bool, standIn: seq<string>)
    requires Distinct(owners) && |standIn| <= 1
    ensures |Targets(owners, self, alive, standIn)| ==
            |LiveOthers(owners, self, alive)| + if standIn == [] then 0 else |DeadOthers(owners, self, alive)|
    decreases |owners|
  {
    hide Distinct;
    if owners == [] {
      assert LiveOthers(owners, self, alive) == {} && DeadOthers(owners, self, alive) == {};
    } else {
      var init, o := owners[..|owners| - 1], owners[|owners| - 1];
      OthersSnoc(owners, self, alive);
      TargetsSize(init, self, alive, standIn);
      assert o !in LiveOthers(init, self, alive) && o !in DeadOthers(init, self, alive);
    }
  }

  lemma {:induction false} StandInIsFirst(
    candidates: seq<string>, owners: seq<string>, self: string, alive: string -> bool)
    requires StandIn(candidates, owners, self, alive) != []
    ensures IsStandIn(StandIn(candidates, owners, self, alive)[0], candidates, owners, self, alive)
    decreases |candidates|
  {
    if !CanStandIn(candidates[0], owners, self, alive) {
      var rest := candidates[1..];
      StandInIsFirst(rest, owners, self, alive);
      var c := StandIn(candidates, owners, self, alive)[0];
      var i :| 0 <= i < |rest| && rest[i] == c &&
               forall k | 0 <= k < i :: rest[k] == self || rest[k] in owners || !alive(rest[k]);
      forall k | 0 <= k < i + 1 ensures candidates[k] == self || candidates[k] in owners || !alive(candidates[k]) {
        if k > 0 { assert rest[k - 1] == candidates[k]; }
      }
      assert candidates[i + 1] == c;
    }
  }

  lemma SameStandIn(candidates: seq<string>, owners: seq<string>, self: string, alive: string -> bool)
    ensures
      var standIn := StandIn(candidates, owners, self, alive);
      && (forall c | c in standIn :: IsStandIn(c, candidates, owners, self, alive))
      && (standIn == [] <==> !exists c :: IsStandIn(c, candidates, owners, self, alive))
  {
    var standIn := StandIn(candidates, owners, self, alive);
    if standIn != [] {
      StandInIsFirst(candidates, owners, self, alive);
      assert forall c | c in standIn :: c == standIn[0];
    } else {
      assert forall i | 0 <= i < |candidates| ::
          candidates[i] in candidates && !CanStandIn(candidates[i], owners, self, alive);
    }
  }

  lemma TargetsAreRight(candidates: seq<string>, owners: seq<string>, self: string, alive: string -> bool)
    requires Distinct(owners)
    ensures
      var remotes := Targets(owners, self, alive, StandIn(candidates, owners, self, alive));
      SentRight(remotes, candidates, owners, self, alive)
  {
    hide IsStandIn, StandIn, Targets, DeadOwners;
    var standIn := StandIn(candidates, owners, self, alive);
    var remotes := Targets(owners, self, alive, standIn);
    SameStandIn(candidates, owners, self, alive);
    TargetsSize(owners, self, alive, standIn);
    DeadAre(owners, self, alive);
    forall o | o in LiveOthers(owners, self, alive) ensures o in remotes {
      TargetsReach(owners, self, alive, standIn, o);
    }
    forall r | r in remotes
      ensures r in LiveOthers(owners, self, alive) ||
              (DeadOthers(owners, self, alive) != {} && IsStandIn(r, candidates, owners, self, alive))
    {
      TargetsIn(owners, self, alive, standIn, r);
      ElementsEmpty(DeadOwners(owners, self, alive));
    }
  }

  lemma HintsAreRight(owners: seq<string>, self: string, alive: string -> bool, key: string, vv: Version)
    requires Distinct(owners)
    ensures HintedRight(HintsFor(DeadOwners(owners, self, alive), key, vv), key, vv, DeadOthers(owners, self, alive))
  {
    hide DeadOwners, DeadOthers;
    var d := DeadOwners(owners, self, alive);
    var hints := HintsFor(d, key, vv);
    DeadAre(owners, self, alive);
    DistinctSize(d);
    forall h ensures h in hints <==> h.owner in Elements(d) && h.key == key && h.value == vv {
      if h.owner in d && h.key == key && h.value == vv {
        var i :| 0 <= i < |d| && d[i] == h.owner;
        assert hints[i] == h;
      }
    }
  }

  /** Every owner is alive and every copy acknowledged. */
  ghost predicate AllUp(owners: seq<string>, self: string, alive: string -> bool, done: seq<Completion>) {
    (forall o | o in owners :: o == self || alive(o)) && forall c | c in done :: c.ok
  }

  /** With every owner alive, there is one copy for each. */
  lemma AllAliveAllSent(
    remotes: seq<string>, candidates: seq<string>, owners: seq<string>, self: string, alive: string -> bool)
    requires Distinct(owners) && SentRight(remotes, candidates, owners, self, alive)
    requires forall o | o in owners :: o == self || alive(o)
    ensures |remotes| + (if self in owners then 1 else 0) == |owners|
  {
    hide IsStandIn;
    assert DeadOthers(owners, self, alive) == {};
    DistinctSize(owners);
    assert Elements(owners) == LiveOthers(owners, self, alive) + if self in owners then {self} else {};
  }

  /** The loop over the owners: the local put, the copies to send, and a hint for every dead owner. */
  method PlanWrite(storage: Storage, key: string, vv: Version, owners: seq<string>, self: string, alive: string -> bool,
                   candidates: seq<string>)
    returns (localAcks: nat, remotes: seq<string>, hints: seq<Hint>)
    requires Distinct(owners)
    modifies storage
    ensures storage.cells == if self in owners then old(storage.cells)[key := Serialize(vv)] else old(storage.cells)
    ensures localAcks == if self in owners then 1 else 0
    ensures SentRight(remotes, candidates, owners, self, alive)
    ensures HintedRight(hints, key, vv, DeadOthers(owners, self, alive))
    ensures remotes == Targets(owners, self, alive, StandIn(candidates, owners, self, alive))
    ensures hints == HintsFor(DeadOwners(owners, self, alive), key, vv)
  {
    hide Serialize, SentRight, HintedRight, StandIn;
    localAcks, remotes, hints := 0, [], [];
    ghost var standIn := StandIn(candidates, owners, self, alive);
    for i := 0 to |owners|
      invariant localAcks == LocalAcks(owners[..i], self)
      invariant storage.cells ==
                if self in owners[..i] then old(storage.cells)[key := Serialize(vv)] else old(storage.cells)
      invariant remotes == Targets(owners[..i], self, alive, standIn)
      invariant hints == HintsFor(DeadOwners(owners[..i], self, alive), key, vv)
    {
      var owner := owners[i];
      assert owners[..i + 1][..i] == owners[..i] && owners[..i + 1][i] == owner;
      if owner == self {
        storage.Put(key, Serialize(vv));
        localAcks := localAcks + 1;
      } else if !alive(owner) {
        var pick := PickStandIn(owner, candidates, owners, self, alive);
        remotes := remotes + pick;
        hints := hints + [Hint(owner, key, vv)];
      } else {
        remotes := remotes + [owner];
      }
    }
    assert owners[..|owners|] == owners;
    TargetsAreRight(candidates, owners, self, alive);
    HintsAreRight(owners, self, alive, key, vv);
  }

  function LocalAcks(owners: seq<string>, self: string): nat { if self in owners then 1 else 0 }

  method PickStandIn(owner: string, candidates: seq<string>, owners: seq<string>, self: string, alive: string -> bool)
    returns (pick: seq<string>)
    requires owner in owners
    ensures pick == StandIn(candidates, owners, self, alive)
  {
    assert candidates[0..] == candidates;
    for i := 0 to |candidates|
      invariant StandIn(candidates, owners, self, alive) == StandIn(candidates[i..], owners, self, alive)
    {
      var c := candidates[i];
      assert candidates[i..][1..] == candidates[i + 1..];
      if c != self && c != owner && c !in owners && alive(c) { return [c]; }
    }
    return [];
  }

  lemma {:induction false} TargetsIn(
    owners: seq<string>, self: string, alive: string -> bool, standIn: seq<string>, x: string)
    ensures x in Targets(owners, self, alive, standIn) ==>
              (x in owners && x != self && alive(x)) || (x in standIn && DeadOwners(owners, self, alive) != [])
    decreases |owners|
  {
    if owners != [] { TargetsIn(owners[..|owners| - 1], self, alive, standIn, x); }
  }

  /** The exact condition for every copy to go to a different node. */
  lemma {:induction false} TargetsDistinctIff(
    owners: seq<string>, self: string, alive: string -> bool, standIn: seq<string>)
    requires Distinct(owners) && |standIn| <= 1
    requires forall c | c in standIn :: c != self && c !in owners
    ensures Distinct(Targets(owners, self, alive, standIn)) <==>
            |DeadOwners(owners, self, alive)| <= 1 || standIn == []
    decreases |owners|
  {
    if owners != [] {
      var init, o := owners[..|owners| - 1], owners[|owners| - 1];
      assert forall c | c in init :: c in owners;
      TargetsDistinctIff(init, self, alive, standIn);
      var ts, add := Targets(init, self, alive, standIn), TargetOf(o, self, alive, standIn);
      assert Targets(owners, self, alive, standIn) == ts + add;
      if add == [] {
        assert ts + add == ts;
      } else {
        var x := add[0];
        assert add == [x];
        TargetsIn(init, self, alive, standIn, x);
        DistinctAppend(ts, x);
        if standIn != [] && x == standIn[0] { StandInUsed(init, self, alive, standIn); }
      }
    }
  }

  lemma DistinctAppend(s: seq<string>, x: string)
    ensures Distinct(s + [x]) <==> Distinct(s) && x !in s
  {
    if x in s {
      var i :| 0 <= i < |s| && s[i] == x;
      assert (s + [x])[i] == (s + [x])[|s|];
    }
    if Distinct(s + [x]) {
      forall i, j | 0 <= i < j < |s| ensures s[i] != s[j] { assert (s + [x])[i] != (s + [x])[j]; }
    }
  }

  lemma {:induction false} StandInUsed(owners: seq<string>, self: string, alive: string -> bool, standIn: seq<string>)
    requires |standIn| == 1 && standIn[0] !in owners
    ensures standIn[0] in Targets(owners, self, alive, standIn) <==> DeadOwners(owners, self, alive) != []
    decreases |owners|
  {
    if owners != [] { StandInUsed(owners[..|owners| - 1], self, alive, standIn); }
  }

  // -------------------------------------------------------------------------
  // Writes: what an acknowledgement is worth
  // -------------------------------------------------------------------------

  /**
   A replica thread finishing: which copy, whether the replica applied it, and
   whether it acknowledged.  An application whose reply is lost counts as neither
   acknowledged nor undone.
   */
  datatype Completion = Completion(copy: nat, applied: bool, ok: bool)

  /** One completion per copy, in any order; only what was applied is acknowledged. */
  ghost predicate Arrivals(done: seq<Completion>, copies: nat) {
    && (forall c | c in done :: c.copy < copies && (c.ok ==> c.applied))
    && (forall i, j | 0 <= i < j < |done| :: done[i].copy != done[j].copy)
  }

  /** The copies acknowledged. */
  function AckedCopies(done: seq<Completion>): set<nat> {
    set c | c in done && c.ok :: c.copy
  }

  /** The nodes that acknowledged, this one included when it wrote locally. */
  ghost function Ackers(local: nat, self: string, remotes: seq<string>, done: seq<Completion>): set<string>
    requires Arrivals(done, |remotes|)
  {
    (if local > 0 then {self} else {}) + Image(remotes, AckedCopies(done))
  }

  /** The nodes the given copies went to. */
  ghost function Image(remotes: seq<string>, copies: set<nat>): set<string>
    requires forall k | k in copies :: k < |remotes|
  {
    set k | k in copies :: remotes[k]
  }

  /** The waiter looks at ever longer prefixes of the completions, the last time at its deadline. */
  ghost predicate Wakes(wakes: seq<nat>, n: nat) {
    && wakes != [] && (forall i | 0 <= i < |wakes| :: wakes[i] <= n)
    && forall i, j | 0 <= i < j < |wakes| :: wakes[i] <= wakes[j]
  }

  /**
   Waiting for the quorum.  `done` is the order in which replica threads finish,
   `wakes[i]` how many have when the waiter looks for the i-th time.  It stops
   looking once W is met or all have finished, and counts everything it then sees.
   */
  method AwaitAcks(local: nat, copies: nat, w: int, done: seq<Completion>, wakes: seq<nat>)
    returns (ok: bool, acks: nat, seen: nat)
    requires Arrivals(done, copies) && Wakes(wakes, |done|)
    ensures seen in wakes && acks == local + |AckedCopies(done[..seen])| <= local + seen
    ensures ok <==> acks >= w
    ensures ok || seen == copies || seen == wakes[|wakes| - 1]
  {
    acks, seen := CountAcks(local, done, wakes[0]);
    var i := 0;
    while !(acks >= w || seen == copies) && i < |wakes| - 1
      invariant 0 <= i < |wakes| && seen == wakes[i]
      invariant acks == local + |AckedCopies(done[..seen])| <= local + seen
      decreases |wakes| - i
    {
      i := i + 1;
      acks, seen := CountAcks(local, done, wakes[i]);
    }
    ok := acks >= w;
  }

  /** The counter the replica threads keep, once the first `n` have finished. */
  method CountAcks(local: nat, done: seq<Completion>, n: nat) returns (acks: nat, seen: nat)
    requires n <= |done| && forall i, j | 0 <= i < j < |done| :: done[i].copy != done[j].copy
    ensures seen == n && acks == local + |AckedCopies(done[..n])| <= local + n
  {
    acks, seen := local, 0;
    while seen < n
      invariant seen <= n && acks == local + |AckedCopies(done[..seen])| <= local + seen
    {
      AckOne(done, seen);
      if done[seen].ok { acks := acks + 1; }
      seen := seen + 1;
    }
  }

  lemma AckOne(done: seq<Completion>, k: nat)
    requires k < |done| && forall i, j | 0 <= i < j < |done| :: done[i].copy != done[j].copy
    ensures |AckedCopies(done[..k + 1])| == |AckedCopies(done[..k])| + if done[k].ok then 1 else 0
  {
    assert done[..k + 1] == done[..k] + [done[k]];
    assert AckedCopies(done[..k + 1]) == AckedCopies(done[..k]) + if done[k].ok then {done[k].copy} else {};
  }

  /** With copies on distinct remote nodes, each ack is a distinct node holding the write. */
  lemma {:induction false} AcksAreNodes(remotes: seq<string>, copies: set<nat>)
    requires Distinct(remotes) && forall k | k in copies :: k < |remotes|
    ensures |Image(remotes, copies)| == |copies|
    decreases |copies|
  {
    if copies != {} {
      var k :| k in copies;
      AcksAreNodes(remotes, copies - {k});
      ImageSplit(remotes, copies, k);
      assert remotes[k] !in Image(remotes, copies - {k});
    }
  }

  lemma ImageSplit(remotes: seq<string>, copies: set<nat>, k: nat)
    requires k in copies && forall j | j in copies :: j < |remotes|
    ensures Image(remotes, copies) == Image(remotes, copies - {k}) + {remotes[k]}
  {
    forall x | x in Image(remotes, copies) ensures x in Image(remotes, copies - {k}) + {remotes[k]} {
      var j :| j in copies && x == remotes[j];
      assert j == k || j in copies - {k};
    }
  }

  lemma DistinctAckers(self: string, local: nat, remotes: seq<string>, done: seq<Completion>)
    requires local <= 1 && Distinct(remotes) && self !in remotes && Arrivals(done, |remotes|)
    ensures |Ackers(local, self, remotes, done)| == local + |AckedCopies(done)|
  {
    var copies := AckedCopies(done);
    AcksAreNodes(remotes, copies);
    var nodes := Image(remotes, copies);
    assert self !in nodes;
    if local == 0 { assert {} + nodes == nodes; }
  }

  /**
   Honest acknowledgements: over every interleaving of completions, the ack count
   is the number of distinct nodes that stored the write (or kept a newer version)
   exactly when at most one owner is dead or there is no stand-in for it.
   */
  lemma HonestAcksIff(owners: seq<string>, self: string, alive: string -> bool, standIn: seq<string>)
    requires Distinct(owners) && |standIn| <= 1
    requires forall c | c in standIn :: c != self && c !in owners
    ensures
      var remotes := Targets(owners, self, alive, standIn);
      var local := if self in owners then 1 else 0;
      (|DeadOwners(owners, self, alive)| <= 1 || standIn == []) <==>
      forall done | Arrivals(done, |remotes|) ::
        |Ackers(local, self, remotes, done)| == local + |AckedCopies(done)|
  {
    var remotes := Targets(owners, self, alive, standIn);
    var local := if self in owners then 1 else 0;
    TargetsDistinctIff(owners, self, alive, standIn);
    TargetsIn(owners, self, alive, standIn, self);
    if Distinct(remotes) {
      forall done | Arrivals(done, |remotes|)
        ensures |Ackers(local, self, remotes, done)| == local + |AckedCopies(done)|
      {
        DistinctAckers(self, local, remotes, done);
      }
    } else {
      var i, j :| 0 <= i < j < |remotes| && remotes[i] == remotes[j];
      DoubleCounted(self, local, remotes, i, j);
    }
  }

  /** Two copies on one node: both acks count, one node holds the write. */
  lemma DoubleCounted(self: string, local: nat, remotes: seq<string>, i: nat, j: nat)
    requires i < j < |remotes| && remotes[i] == remotes[j]
    ensures exists done :: Arrivals(done, |remotes|) &&
              |Ackers(local, self, remotes, done)| < local + |AckedCopies(done)|
  {
    var done := [Completion(i, true, true), Completion(j, true, true)];
    assert done[0] in done && done[1] in done;
    assert AckedCopies(done) == {i, j};
    assert Arrivals(done, |remotes|);
    OneNode(local, self, remotes, done, i, j);
  }

  lemma OneNode(local: nat, self: string, remotes: seq<string>, done: seq<Completion>, i: nat, j: nat)
    requires Arrivals(done, |remotes|) && i < |remotes| && j < |remotes| && i != j && remotes[i] == remotes[j]
    requires AckedCopies(done) == {i, j}
    ensures |Ackers(local, self, remotes, done)| < local + |AckedCopies(done)|
  {
    var nodes := Image(remotes, AckedCopies(done));
    assert nodes == {remotes[i]};
    if local > 0 { UnionSize({self}, nodes); }
  }

  lemma UnionSize(a: set<string>, b: set<string>)
    ensures |a + b| <= |a| + |b|
  {
    assert a + b == a + (b - a);
    SubsetSize(b - a, b);
  }

  // -------------------------------------------------------------------------
  // Writes: what the nodes hold
  // -------------------------------------------------------------------------

  function Held(stores: map<string, Version>, node: string): Option<Version> {
    if node in stores then Some(stores[node]) else None
  }

  /** Every node's copy of the key once these replica threads have finished, in order. */
  function AfterCopies(stores: map<string, Version>, remotes: seq<string>, done: seq<Completion>, vv: Version)
    : map<string, Version>
    requires forall c | c in done :: c.copy < |remotes|
  {
    if done == [] then stores
    else
      assert done[|done| - 1] in done && forall c | c in done[..|done| - 1] :: c in done;
      var before := AfterCopies(stores, remotes, done[..|done| - 1], vv);
      var last := done[|done| - 1];
      var node := remotes[last.copy];
      if last.applied then before[node := Replicated(Held(before, node), vv)] else before
  }

  /** The same, the coordinator's own put first. */
  function AfterWrite(
    stores: map<string, Version>, local: nat, self: string, remotes: seq<string>, done: seq<Completion>, vv: Version)
    : map<string, Version>
    requires forall c | c in done :: c.copy < |remotes|
  {
    AfterCopies(if local > 0 then stores[self := vv] else stores, remotes, done, vv)
  }

  /** The node stored the write, or kept a strictly newer version. */
  predicate HasWrite(stores: map<string, Version>, node: string, vv: Version) {
    node in stores && (stores[node] == vv || Order(stores[node].clock, vv.clock) == ADominates)
  }

  /** The nodes an applied copy went to. */
  ghost function Reached(remotes: seq<string>, done: seq<Completion>): set<string>
    requires forall c | c in done :: c.copy < |remotes|
  {
    set c | c in done && c.applied :: remotes[c.copy]
  }

  lemma ReplicatedHas(before: map<string, Version>, node: string, vv: Version)
    ensures HasWrite(before[node := Replicated(Held(before, node), vv)], node, vv)
  {
  }

  /** A copy that was applied leaves the write or a newer version; every other node is as it was. */
  lemma {:induction false} CopiesLand(
    stores: map<string, Version>, remotes: seq<string>, done: seq<Completion>, vv: Version, node: string)
    requires forall c | c in done :: c.copy < |remotes|
    ensures
      var after := AfterCopies(stores, remotes, done, vv);
      && (node in Reached(remotes, done) || HasWrite(stores, node, vv) ==> HasWrite(after, node, vv))
      && (node !in Reached(remotes, done) ==> Held(after, node) == Held(stores, node))
    decreases |done|
  {
    hide HasWrite, Replicated;
    if done != [] {
      var init, last := done[..|done| - 1], done[|done| - 1];
      assert last in done && forall c | c in init :: c in done;
      CopiesLand(stores, remotes, init, vv, node);
      ReachedSnoc(remotes, done);
      ReplicatedHas(AfterCopies(stores, remotes, init, vv), node, vv);
      if !(last.applied && remotes[last.copy] == node) {
        SameHeld(AfterCopies(stores, remotes, init, vv), AfterCopies(stores, remotes, done, vv), node, vv);
      }
    }
  }

  lemma SameHeld(a: map<string, Version>, b: map<string, Version>, node: string, vv: Version)
    requires Held(a, node) == Held(b, node)
    ensures HasWrite(a, node, vv) <==> HasWrite(b, node, vv)
  {
  }

  lemma ReachedSnoc(remotes: seq<string>, done: seq<Completion>)
    requires done != [] && forall c | c in done :: c.copy < |remotes|
    ensures
      var init, last := done[..|done| - 1], done[|done| - 1];
      && (forall c | c in init :: c.copy < |remotes|) && last.copy < |remotes|
      && Reached(remotes, done) == Reached(remotes, init) + if last.applied then {remotes[last.copy]} else {}
  {
    var init, last := done[..|done| - 1], done[|done| - 1];
    assert last in done && forall c :: c in done <==> c in init || c == last;
  }

  lemma AckersReached(local: nat, self: string, remotes: seq<string>, done: seq<Completion>)
    requires Arrivals(done, |remotes|)
    ensures Ackers(local, self, remotes, done) <= (if local > 0 then {self} else {}) + Reached(remotes, done)
  {
    forall n | n in Image(remotes, AckedCopies(done)) ensures n in Reached(remotes, done) {
      var k :| k in AckedCopies(done) && n == remotes[k];
      var c :| c in done && c.ok && c.copy == k;
    }
  }

  lemma AckersHold(
    local: nat, self: string, remotes: seq<string>, done: seq<Completion>, stores: map<string, Version>, vv: Version)
    requires Arrivals(done, |remotes|)
    ensures forall n | n in Ackers(local, self, remotes, done) ::
              HasWrite(AfterWrite(stores, local, self, remotes, done, vv), n, vv)
  {
    hide AfterCopies, Ackers, Reached;
    var first := if local > 0 then stores[self := vv] else stores;
    AckersReached(local, self, remotes, done);
    forall n | n in Ackers(local, self, remotes, done)
      ensures HasWrite(AfterWrite(stores, local, self, remotes, done, vv), n, vv)
    {
      CopiesLand(first, remotes, done, vv, n);
    }
  }

  lemma AckersAreTargets(
    owners: seq<string>, self: string, alive: string -> bool, standIn: seq<string>, done: seq<Completion>)
    requires Arrivals(done, |Targets(owners, self, alive, standIn)|)
    ensures Ackers(LocalAcks(owners, self), self, Targets(owners, self, alive, standIn), done) <=
            Elements(owners) + Elements(standIn)
  {
    var remotes := Targets(owners, self, alive, standIn);
    forall n | n in Image(remotes, AckedCopies(done)) ensures n in Elements(owners) + Elements(standIn) {
      assert n in remotes;
      TargetsIn(owners, self, alive, standIn, n);
    }
  }

  /**
   A successful write is on at least W distinct nodes.  Whatever the nodes held
   before, and in whatever order the replica threads finish, the nodes that
   acknowledged are owners or the stand-in, at least W of them, and each has the
   write or a strictly newer version; a node no copy was applied to is as it was.
   */
  lemma SuccessMeansWNodes(owners: seq<string>, self: string, alive: string -> bool, candidates: seq<string>,
                           done: seq<Completion>, w: int, stores: map<string, Version>, vv: Version)
    requires
      && Distinct(owners)
      && (|DeadOwners(owners, self, alive)| <= 1 || StandIn(candidates, owners, self, alive) == [])
    requires Arrivals(done, |Targets(owners, self, alive, StandIn(candidates, owners, self, alive))|)
    requires LocalAcks(owners, self) + |AckedCopies(done)| >= w
    ensures
      var standIn := StandIn(candidates, owners, self, alive);
      var local, remotes := LocalAcks(owners, self), Targets(owners, self, alive, standIn);
      var nodes := Ackers(local, self, remotes, done);
      var after := AfterWrite(stores, local, self, remotes, done, vv);
      && |nodes| >= w && nodes <= Elements(owners) + Elements(standIn)
      && (forall n | n in nodes :: HasWrite(after, n, vv))
      && (forall n | n !in Reached(remotes, done) && n !in nodes :: Held(after, n) == Held(stores, n))
  {
    hide Targets, DeadOwners, Ackers, AfterCopies, HasWrite, Reached;
    var standIn := StandIn(candidates, owners, self, alive);
    var local, remotes := LocalAcks(owners, self), Targets(owners, self, alive, standIn);
    HonestAcksIff(owners, self, alive, standIn);
    AckersAreTargets(owners, self, alive, standIn, done);
    AckersHold(local, self, remotes, done, stores, vv);
    LocalAcker(local, self, remotes, done);
    forall n | n !in Reached(remotes, done) && n !in Ackers(local, self, remotes, done)
      ensures Held(AfterWrite(stores, local, self, remotes, done, vv), n) == Held(stores, n)
    {
      CopiesLand(if local > 0 then stores[self := vv] else stores, remotes, done, vv, n);
    }
  }

  lemma LocalAcker(local: nat, self: string, remotes: seq<string>, done: seq<Completion>)
    requires Arrivals(done, |remotes|)
    ensures local > 0 ==> self in Ackers(local, self, remotes, done)
  {
  }

  /**
   With two dead owners and a stand-in the promise fails: there is an order of
   completions after which W acks are counted and fewer than W nodes have the write.
   */
  lemma SuccessOnTooFewNodes(
    owners: seq<string>, self: string, alive: string -> bool, candidates: seq<string>, vv: Version)
    requires
      && Distinct(owners)
      && |DeadOwners(owners, self, alive)| > 1 && StandIn(candidates, owners, self, alive) != []
    ensures
      var local := LocalAcks(owners, self);
      var remotes := Targets(owners, self, alive, StandIn(candidates, owners, self, alive));
      exists done :: Arrivals(done, |remotes|) &&
        |AfterWrite(map[], local, self, remotes, done, vv).Keys| < local + |AckedCopies(done)|
  {
    var standIn := StandIn(candidates, owners, self, alive);
    var local, remotes := LocalAcks(owners, self), Targets(owners, self, alive, standIn);
    TargetsDistinctIff(owners, self, alive, standIn);
    var i, j :| 0 <= i < j < |remotes| && remotes[i] == remotes[j];
    TwoCopiesOneNode(local, self, remotes, i, j, vv);
  }

  lemma OneCopy(stores: map<string, Version>, remotes: seq<string>, done: seq<Completion>, vv: Version)
    requires done != [] && (forall c | c in done :: c.copy < |remotes|) && done[|done| - 1].applied
    ensures
      && (forall c | c in done[..|done| - 1] :: c.copy < |remotes|) && done[|done| - 1].copy < |remotes|
      && AfterCopies(stores, remotes, done, vv).Keys ==
         AfterCopies(stores, remotes, done[..|done| - 1], vv).Keys + {remotes[done[|done| - 1].copy]}
  {
    assert done[|done| - 1] in done && forall c | c in done[..|done| - 1] :: c in done;
  }

  lemma TwoCopiesOneNode(local: nat, self: string, remotes: seq<string>, i: nat, j: nat, vv: Version)
    requires local <= 1 && i < j < |remotes| && remotes[i] == remotes[j]
    ensures
      var done := [Completion(i, true, true), Completion(j, true, true)];
      && Arrivals(done, |remotes|)
      && |AfterWrite(map[], local, self, remotes, done, vv).Keys| < local + |AckedCopies(done)|
  {
    var done := [Completion(i, true, true), Completion(j, true, true)];
    assert done[0] in done && done[1] in done && AckedCopies(done) == {i, j};
    var first: map<string, Version> := if local > 0 then map[self := vv] else map[];
    OneCopy(first, remotes, [done[0]], vv);
    assert done[..1] == [done[0]];
    OneCopy(first, remotes, done, vv);
    assert [done[0]][..0] == [];
    assert AfterCopies(first, remotes, [], vv) == first;
    assert AfterCopies(first, remotes, done, vv).Keys == first.Keys + {remotes[i]};
    UnionSize(first.Keys, {remotes[i]});
  }

  /**
   `writeQuorum`, given when replica threads finish and when the waiter looks: the
   local put, a hint for every dead owner, and success exactly when the acks seen
   reach W.  `stores` is what all nodes hold of the key when it is called.
   */
  method WriteQuorum(
    storage: Storage, key: string, vv: Version, owners: seq<string>, self: string, alive: string -> bool,
    candidates: seq<string>, w: int, done: seq<Completion>, wakes: seq<nat>, ghost stores: map<string, Version>)
    returns (ok: bool, hints: seq<Hint>, remotes: seq<string>, seen: nat)
    requires Distinct(owners) && Wakes(wakes, |done|)
    requires Arrivals(done, |Targets(owners, self, alive, StandIn(candidates, owners, self, alive))|)
    modifies storage
    ensures owners == [] ==> !ok && storage.cells == old(storage.cells)
    ensures storage.cells == if self in owners then old(storage.cells)[key := Serialize(vv)] else old(storage.cells)
    ensures hints == HintsFor(DeadOwners(owners, self, alive), key, vv)
    ensures remotes == Targets(owners, self, alive, StandIn(candidates, owners, self, alive)) && seen <= |done|
    ensures owners != [] ==> seen in wakes && (ok <==> LocalAcks(owners, self) + |AckedCopies(done[..seen])| >= w)
    ensures owners != [] ==> ok || seen == |remotes| || seen == wakes[|wakes| - 1]
    ensures SentRight(remotes, candidates, owners, self, alive)
    ensures HintedRight(hints, key, vv, DeadOthers(owners, self, alive))
    ensures owners != [] && AllUp(owners, self, alive, done) && |done| == |remotes| == wakes[|wakes| - 1] ==>
              (w <= |owners| ==> ok)
    ensures ok && (|hints| <= 1 || StandIn(candidates, owners, self, alive) == []) ==>
              var nodes := Ackers(LocalAcks(owners, self), self, remotes, done[..seen]);
              |nodes| >= w && forall n | n in nodes ::
                HasWrite(AfterWrite(stores, LocalAcks(owners, self), self, remotes, done[..seen], vv), n, vv)
  {
    hide Targets, DeadOwners, Ackers, AfterWrite, HasWrite, Reached, Serialize, StandIn, SentRight, HintedRight;
    TargetsAreRight(candidates, owners, self, alive);
    HintsAreRight(owners, self, alive, key, vv);
    if |owners| == 0 {
      NoOwners(self, alive, candidates);
      return false, [], [], 0;
    }
    var localAcks;
    localAcks, remotes, hints := PlanWrite(storage, key, vv, owners, self, alive, candidates);
    var acks;
    ok, acks, seen := AwaitAcks(localAcks, |remotes|, w, done, wakes);
    ArrivalsPrefix(done, |remotes|, seen);
    if seen == |done| {
      assert done[..seen] == done;
      AllAcked(done);
    }
    if forall o | o in owners :: o == self || alive(o) { AllAliveAllSent(remotes, candidates, owners, self, alive); }
    if ok && (|hints| <= 1 || StandIn(candidates, owners, self, alive) == []) {
      SuccessMeansWNodes(owners, self, alive, candidates, done[..seen], w, stores, vv);
    }
  }

  lemma {:induction false} AllAcked(done: seq<Completion>)
    requires forall i, j | 0 <= i < j < |done| :: done[i].copy != done[j].copy
    ensures (forall c | c in done :: c.ok) ==> |AckedCopies(done)| == |done|
    decreases |done|
  {
    if done != [] && forall c | c in done :: c.ok {
      var n := |done| - 1;
      assert done[n] in done && forall c | c in done[..n] :: c in done;
      AllAcked(done[..n]);
      AckOne(done, n);
      assert done[..n + 1] == done;
    }
  }

  lemma NoOwners(self: string, alive: string -> bool, candidates: seq<string>)
    ensures DeadOwners([], self, alive) == [] && Targets([], self, alive, StandIn(candidates, [], self, alive)) == []
  {
  }

  lemma ArrivalsPrefix(done: seq<Completion>, copies: nat, n: nat)
    requires Arrivals(done, copies) && n <= |done|
    ensures Arrivals(done[..n], copies)
  {
  }
}
