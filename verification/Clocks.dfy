/**
 Vector clocks: the causal order `compare` decides, the join `merge` computes,
 and the bounded form `prune` leaves behind.

 A clock is modelled by the map the class wraps.  Counters are unbounded here;
 the original's 64-bit counters are taken never to wrap.
 */
module Clocks {
  import opened Orders

  /** One node's contribution; `updatedMs` is pruning metadata only. */
  datatype Entry = Entry(counter: nat, updatedMs: nat)

  type Clock = map<string, Entry>

  datatype Ordering = Equal | ADominates | BDominates | Concurrent

  function Count(c: Clock, id: string): nat {
    if id in c then c[id].counter else 0
  }

  /** The class invariant: an explicit zero is never stored. */
  ghost predicate ZeroFree(c: Clock) {
    forall id | id in c :: c[id].counter > 0
  }

  /** `b` has seen every write `a` has seen. */
  predicate Leq(a: Clock, b: Clock) {
    forall id | id in a :: a[id].counter <= Count(b, id)
  }

  /** What `compare` is meant to decide. */
  function Order(a: Clock, b: Clock): Ordering {
    if Leq(a, b) then (if Leq(b, a) then Equal else BDominates)
    else if Leq(b, a) then ADominates
    else Concurrent
  }

  /** The causal content of a clock: its counters without the timestamps. */
  ghost function Counts(c: Clock): map<string, nat> {
    map id | id in c && c[id].counter > 0 :: c[id].counter
  }

  // -------------------------------------------------------------------------
  // The order
  // -------------------------------------------------------------------------

  lemma LeqPointwise(a: Clock, b: Clock)
    ensures Leq(a, b) <==> forall id :: Count(a, id) <= Count(b, id)
  {
    if Leq(a, b) {
      forall id ensures Count(a, id) <= Count(b, id) {}
    } else {
      var id :| id in a && a[id].counter > Count(b, id);
      assert Count(a, id) > Count(b, id);
    }
  }

  lemma LeqTrans(a: Clock, b: Clock, c: Clock)
    requires Leq(a, b) && Leq(b, c)
    ensures Leq(a, c)
  {
    LeqPointwise(a, b);
    LeqPointwise(b, c);
    LeqPointwise(a, c);
  }

  /** Antisymmetry, up to timestamps. */
  lemma EqualMeansSameCounts(a: Clock, b: Clock)
    ensures Order(a, b) == Equal <==> Counts(a) == Counts(b)
  {
    LeqPointwise(a, b);
    LeqPointwise(b, a);
    if Order(a, b) == Equal {
      forall id ensures Count(a, id) == Count(b, id) {}
      assert Counts(a).Keys == Counts(b).Keys by {
        forall id ensures id in Counts(a) <==> id in Counts(b) {
          assert id in Counts(a) <==> Count(a, id) > 0;
          assert id in Counts(b) <==> Count(b, id) > 0;
        }
      }
    } else if Counts(a) == Counts(b) {
      forall id ensures Count(a, id) == Count(b, id) {
        assert Count(a, id) == if id in Counts(a) then Counts(a)[id] else 0;
        assert Count(b, id) == if id in Counts(b) then Counts(b)[id] else 0;
      }
    }
  }

  /**
   `compare` is a partial order on histories: swapping the arguments mirrors the
   verdict, and dominance composes with dominance or equality.
   */
  lemma OrderIsPartialOrder(a: Clock, b: Clock, c: Clock)
    ensures Order(a, a) == Equal
    ensures Order(a, b) == ADominates <==> Order(b, a) == BDominates
    ensures Order(a, b) == Concurrent <==> Order(b, a) == Concurrent
    ensures Order(a, b) == ADominates && Order(b, c) in {ADominates, Equal} ==> Order(a, c) == ADominates
    ensures Order(a, b) == Equal && Order(b, c) == ADominates ==> Order(a, c) == ADominates
    ensures Order(a, b) == Equal && Order(b, c) == Equal ==> Order(a, c) == Equal
  {
    if Leq(b, a) && Leq(c, b) {
      LeqTrans(c, b, a);
      if Leq(a, c) {
        LeqTrans(a, c, b);
        LeqTrans(b, a, c);
      }
    }
    if Leq(a, b) && Leq(b, c) { LeqTrans(a, b, c); }
  }

  // -------------------------------------------------------------------------
  // The join
  // -------------------------------------------------------------------------

  /** Counter-wise maximum; the side that wins an entry contributes its timestamp. */
  function Merged(a: Clock, b: Clock): Clock {
    a + map id | id in b && b[id].counter > Count(a, id) :: b[id]
  }

  lemma MergedCount(a: Clock, b: Clock, id: string)
    ensures Count(Merged(a, b), id) == if Count(b, id) > Count(a, id) then Count(b, id) else Count(a, id)
  {
  }

  /** `merge` is the least upper bound of its arguments. */
  lemma MergeIsLeastUpperBound(a: Clock, b: Clock, u: Clock)
    ensures Leq(a, Merged(a, b)) && Leq(b, Merged(a, b))
    ensures Leq(Merged(a, b), u) <==> Leq(a, u) && Leq(b, u)
    ensures ZeroFree(a) ==> ZeroFree(Merged(a, b))
  {
    var m := Merged(a, b);
    forall id ensures Count(m, id) >= Count(a, id) && Count(m, id) >= Count(b, id) {
      MergedCount(a, b, id);
    }
    LeqPointwise(a, m);
    LeqPointwise(b, m);
    if Leq(a, u) && Leq(b, u) {
      forall id | id in m ensures m[id].counter <= Count(u, id) {}
    }
    if Leq(m, u) {
      LeqTrans(a, m, u);
      LeqTrans(b, m, u);
    }
  }

  // -------------------------------------------------------------------------
  // Pruning
  // -------------------------------------------------------------------------

  /** Pruning order: oldest first, node id breaking ties. */
  predicate AgeLess(x: (nat, string), y: (nat, string)) {
    x.0 < y.0 || (x.0 == y.0 && StrLess(x.1, y.1))
  }

  lemma AgeLessTotal()
    ensures StrictTotal(AgeLess)
  {
    StrLessTotal();
  }

  lemma AgeLessAsymmetric(x: (nat, string), y: (nat, string))
    ensures !(AgeLess(x, y) && AgeLess(y, x))
  {
    StrLessTotal();
  }

  function Age(c: Clock, id: string): (nat, string)
    requires id in c
  {
    (c[id].updatedMs, id)
  }

  function Ages(c: Clock): set<(nat, string)> {
    set id | id in c :: Age(c, id)
  }

  lemma {:induction false} AgesSize(c: Clock)
    ensures |Ages(c)| == |c|
    decreases |c|
  {
    if c == map[] {
      assert Ages(c) == {};
    } else {
      var id :| id in c;
      AgesSize(c - {id});
      assert c.Keys == (c - {id}).Keys + {id};
      assert Ages(c) == Ages(c - {id}) + {Age(c, id)} by {
        forall x ensures x in Ages(c) <==> x in Ages(c - {id}) + {Age(c, id)} {
          if x in Ages(c) {
            var j :| j in c && x == Age(c, j);
            if j != id { assert j in c - {id} && x == Age(c - {id}, j); }
          }
        }
      }
      assert Age(c, id) !in Ages(c - {id});
    }
  }

  /** `r` is what is left of `c` when only the `k` newest entries are kept. */
  ghost predicate KeepsNewest(c: Clock, k: nat, r: Clock) {
    && r.Keys <= c.Keys
    && (forall id | id in r :: r[id] == c[id])
    && |r| == (if |c| <= k then |c| else k)
    && (forall x, y | x in r && y in c && y !in r :: AgeLess(Age(c, y), Age(c, x)))
  }

  /** The oldest entry of a non-empty clock. */
  function Oldest(c: Clock): (id: string)
    requires c != map[]
    ensures id in c && forall y | y in c :: y == id || AgeLess(Age(c, id), Age(c, y))
  {
    var some :| some in c;
    assert Age(c, some) in Ages(c);
    AgeLessTotal();
    var x := Least(Ages(c), AgeLess);
    assert forall y | y in c :: Age(c, y) in Ages(c);
    x.1
  }

  /** What `prune(k)` leaves: drop the oldest entry until at most `k` remain. */
  function Pruned(c: Clock, k: nat): Clock
    decreases |c|
  {
    if |c| <= k then c
    else
      DropSize(c, Oldest(c));
      Pruned(c - {Oldest(c)}, k)
  }

  lemma DropSize(c: Clock, id: string)
    requires id in c
    ensures |c - {id}| == |c| - 1
  {
    assert (c - {id}).Keys == c.Keys - {id};
  }

  /** Pruning keeps exactly the `k` entries greatest by (timestamp, id). */
  lemma {:induction false} PruneKeepsNewest(c: Clock, k: nat)
    ensures KeepsNewest(c, k, Pruned(c, k))
    decreases |c|
  {
    if |c| > k {
      var c' := c - {Oldest(c)};
      DropSize(c, Oldest(c));
      PruneKeepsNewest(c', k);
      forall x, y | x in Pruned(c, k) && y in c && y !in Pruned(c, k)
        ensures AgeLess(Age(c, y), Age(c, x))
      {
        if y != Oldest(c) { assert Age(c', y) == Age(c, y) && Age(c', x) == Age(c, x); }
      }
    }
  }

  /** "The `k` newest" determines the result. */
  lemma KeepsNewestUnique(c: Clock, k: nat, r: Clock, s: Clock)
    requires KeepsNewest(c, k, r) && KeepsNewest(c, k, s)
    ensures r == s
  {
    if x :| x in r && x !in s {
      if s.Keys <= r.Keys { SubsetSize(s.Keys, r.Keys); }
      var y :| y in s && y !in r;
      AgeLessAsymmetric(Age(c, x), Age(c, y));
      assert false;
    } else {
      SubsetSize(r.Keys, s.Keys);
    }
  }

  /** Pruning twice is pruning once, to the smaller bound. */
  lemma PruneCompose(c: Clock, j: nat, k: nat)
    ensures Pruned(Pruned(c, k), j) == Pruned(c, if j <= k then j else k)
  {
    var m := if j <= k then j else k;
    var p := Pruned(c, k);
    var q := Pruned(p, j);
    PruneKeepsNewest(c, k);
    PruneKeepsNewest(p, j);
    PruneKeepsNewest(c, m);
    SubsetSize(q.Keys, p.Keys);
    forall x, y | x in q && y in c && y !in q ensures AgeLess(Age(c, y), Age(c, x)) {
      if y in p { assert Age(p, y) == Age(c, y) && Age(p, x) == Age(c, x); }
    }
    KeepsNewestUnique(c, m, q, Pruned(c, m));
  }

  ghost predicate SameStamps(a: Clock, b: Clock) {
    a.Keys == b.Keys && forall id | id in a :: a[id].updatedMs == b[id].updatedMs
  }

  /**
   Two clocks with the same ids and timestamps lose the same entries, so pruning
   both keeps the order between them.
   */
  lemma PruneMonotone(a: Clock, b: Clock, k: nat)
    requires SameStamps(a, b)
    ensures SameStamps(Pruned(a, k), Pruned(b, k))
    ensures Leq(a, b) ==> Leq(Pruned(a, k), Pruned(b, k))
  {
    PruneKeepsNewest(a, k);
    PruneKeepsNewest(b, k);
    var p := Pruned(a, k);
    var q := map id | id in p :: b[id];
    assert q.Keys == p.Keys;
    assert |a| == |a.Keys| == |b|;
    forall x, y | x in q && y in b && y !in q ensures AgeLess(Age(b, y), Age(b, x)) {
      assert Age(b, y) == Age(a, y) && Age(b, x) == Age(a, x);
    }
    KeepsNewestUnique(b, k, q, Pruned(b, k));
  }

  // -------------------------------------------------------------------------
  // Bumping
  // -------------------------------------------------------------------------

  /** The clock a new write carries: the context, our entry raised past context and local copy, pruned. */
  function Bumped(context: Clock, local: Clock, self: string, now: nat, k: nat): Clock {
    Pruned(Raised(context, local, self, now), k)
  }

  function Raised(context: Clock, local: Clock, self: string, now: nat): Clock {
    var base := if Count(context, self) >= Count(local, self) then Count(context, self) else Count(local, self);
    context[self := Entry(base + 1, now)]
  }

  /** The context entries, other than our own, that pruning prefers to one of ours stamped `now`. */
  ghost function Preferred(context: Clock, self: string, now: nat): set<string> {
    set id | id in context && id != self && AgeLess((now, self), Age(context, id))
  }

  lemma PreferredSurvives(context: Clock, local: Clock, self: string, now: nat, k: nat)
    requires self in Bumped(context, local, self, now, k)
    ensures |Preferred(context, self, now)| < k
  {
    hide Pruned;
    var c := Raised(context, local, self, now);
    var r := Bumped(context, local, self, now, k);
    PruneKeepsNewest(c, k);
    forall id | id in Preferred(context, self, now) ensures id in r.Keys - {self} {
      AgeLessAsymmetric(Age(c, self), Age(c, id));
    }
    SubsetSize(Preferred(context, self, now), r.Keys - {self});
  }

  lemma PrunedPreferred(context: Clock, local: Clock, self: string, now: nat, k: nat)
    requires self !in Bumped(context, local, self, now, k)
    ensures |Preferred(context, self, now)| >= k
  {
    hide Pruned;
    var c := Raised(context, local, self, now);
    var r := Bumped(context, local, self, now, k);
    PruneKeepsNewest(c, k);
    assert |c| > k by { SubsetSize(r.Keys, c.Keys); }
    assert r.Keys <= Preferred(context, self, now);
    SubsetSize(r.Keys, Preferred(context, self, now));
  }

  /** Our fresh entry survives pruning exactly when fewer than `k` entries are preferred to it. */
  lemma BumpSurvives(context: Clock, local: Clock, self: string, now: nat, k: nat)
    ensures self in Bumped(context, local, self, now, k) <==> |Preferred(context, self, now)| < k
  {
    if self in Bumped(context, local, self, now, k) {
      PreferredSurvives(context, local, self, now, k);
    } else {
      PrunedPreferred(context, local, self, now, k);
    }
  }

  /**
   The new clock has at most `k` entries and, exactly when fewer than `k` context
   entries are newer than our stamp, it is neither equal to nor dominated by the
   context (and then not by the local copy either).  A wall clock behind the
   context's timestamps breaks it.
   */
  lemma BumpAdvances(context: Clock, local: Clock, self: string, now: nat, k: nat)
    ensures |Bumped(context, local, self, now, k)| <= k
    ensures !Leq(Bumped(context, local, self, now, k), context) <==> |Preferred(context, self, now)| < k
    ensures |Preferred(context, self, now)| < k ==> !Leq(Bumped(context, local, self, now, k), local)
  {
    var c := Raised(context, local, self, now);
    var r := Bumped(context, local, self, now, k);
    PruneKeepsNewest(c, k);
    BumpSurvives(context, local, self, now, k);
  }

  /** With a wall clock ahead of every timestamp in the context, the condition holds for any `k >= 1`. */
  lemma FreshStampAdvances(context: Clock, local: Clock, self: string, now: nat, k: nat)
    requires k >= 1 && forall id | id in context :: context[id].updatedMs < now
    ensures !Leq(Bumped(context, local, self, now, k), context)
    ensures !Leq(Bumped(context, local, self, now, k), local)
    ensures Count(Bumped(context, local, self, now, k), self) > Count(context, self)
    ensures Count(Bumped(context, local, self, now, k), self) > Count(local, self)
  {
    assert Preferred(context, self, now) == {};
    BumpAdvances(context, local, self, now, k);
    BumpSurvives(context, local, self, now, k);
    PruneKeepsNewest(Raised(context, local, self, now), k);
  }

  lemma NothingPruned(context: Clock, local: Clock, self: string, now: nat, k: nat)
    requires |Raised(context, local, self, now)| <= k
    ensures Bumped(context, local, self, now, k) == Raised(context, local, self, now)
  {
  }

  lemma RaisedDominates(context: Clock, local: Clock, self: string, now: nat)
    ensures Order(Raised(context, local, self, now), context) == ADominates
  {
    assert self in Raised(context, local, self, now);
  }

  lemma PrunedNotAbove(context: Clock, local: Clock, self: string, now: nat, k: nat)
    requires ZeroFree(context) && |Raised(context, local, self, now)| > k
    ensures Order(Bumped(context, local, self, now, k), context) != ADominates
  {
    hide Pruned;
    var c := Raised(context, local, self, now);
    var r := Bumped(context, local, self, now, k);
    PruneKeepsNewest(c, k);
    assert r.Keys != c.Keys by { assert |r.Keys| == |r| && |c.Keys| == |c|; }
    var id :| id in c && id !in r;
    if id in context && id != self { assert !Leq(context, r); }
    if id == self && r.Keys == c.Keys - {self} { assert Leq(r, context); }
  }

  /** The new clock strictly dominates its context exactly when nothing had to be pruned from it. */
  lemma BumpDominatesContextIff(context: Clock, local: Clock, self: string, now: nat, k: nat)
    requires ZeroFree(context)
    ensures Order(Bumped(context, local, self, now, k), context) == ADominates <==>
            |Raised(context, local, self, now)| <= k
  {
    hide Pruned, Raised;
    if |Raised(context, local, self, now)| <= k {
      NothingPruned(context, local, self, now, k);
      RaisedDominates(context, local, self, now);
    } else {
      PrunedNotAbove(context, local, self, now, k);
    }
  }

  /**
   With nothing pruned, the new clock strictly dominates the local copy exactly when
   the context has seen everything in it but our own writes.
   */
  lemma BumpDominatesLocalIff(context: Clock, local: Clock, self: string, now: nat, k: nat)
    requires |Raised(context, local, self, now)| <= k
    ensures Order(Bumped(context, local, self, now, k), local) == ADominates <==>
            forall id | id in local && id != self :: Count(local, id) <= Count(context, id)
  {
    hide Pruned;
    NothingPruned(context, local, self, now, k);
    var r := Raised(context, local, self, now);
    assert self in r && Count(r, self) > Count(local, self);
    assert forall id | id != self :: Count(r, id) == Count(context, id);
  }

  /** A write without a context dominates the local copy exactly when that holds nobody else's writes. */
  lemma BlindWriteDominatesIff(local: Clock, self: string, now: nat, k: nat)
    requires ZeroFree(local) && k >= 1
    ensures Order(Bumped(map[], local, self, now, k), local) == ADominates <==> local.Keys <= {self}
  {
    hide Pruned;
    var r := Raised(map[], local, self, now);
    assert r.Keys == {self} && |r| == |r.Keys|;
    BumpDominatesLocalIff(map[], local, self, now, k);
  }

  /** Over a copy another node wrote it is concurrent with it, and the local put replaces that copy all the same. */
  lemma BlindWriteIsConcurrent(self: string, other: string, stamp: nat, now: nat, k: nat)
    requires self != other && k >= 1
    ensures
      var local: Clock := map[other := Entry(1, stamp)];
      Order(Bumped(map[], local, self, now, k), local) == Concurrent
  {
    hide Pruned;
    var local: Clock := map[other := Entry(1, stamp)];
    BlindWriteDominatesIff(local, self, now, k);
    FreshStampAdvances(map[], local, self, now, k);
    assert other in local;
  }

  /** A clock skewed behind its context: the write is born dominated by the version it supersedes. */
  lemma SkewedStampLosesTheBump()
    ensures
      var context: Clock := map["b" := Entry(1, 9)];
      Leq(Bumped(context, map[], "a", 5, 1), context)
  {
    var context: Clock := map["b" := Entry(1, 9)];
    assert "b" in Preferred(context, "a", 5);
    assert Preferred(context, "a", 5) == {"b"};
    BumpAdvances(context, map[], "a", 5, 1);
  }

  // -------------------------------------------------------------------------
  // The class
  // -------------------------------------------------------------------------

  class VectorClock {
    var counts: Clock

    ghost predicate Valid()
      reads this
    {
      ZeroFree(counts)
    }

    constructor ()
      ensures Valid() && counts == map[]
    {
      counts := map[];
    }

    method Set(node: string, counter: nat, updatedMs: nat)
      requires Valid()
      modifies this
      ensures Valid()
      ensures counts == if counter == 0 then old(counts) - {node} else old(counts)[node := Entry(counter, updatedMs)]
    {
      if counter == 0 {
        counts := counts - {node};
      } else {
        counts := counts[node := Entry(counter, updatedMs)];
      }
    }

    method Increment(node: string, now: nat)
      requires Valid()
      modifies this
      ensures Valid()
      ensures counts == old(counts)[node := Entry(Count(old(counts), node) + 1, now)]
      ensures Order(counts, old(counts)) == ADominates
    {
      var e := if node in counts then counts[node] else Entry(0, 0);
      counts := counts[node := Entry(e.counter + 1, now)];
    }

    method Prune(maxEntries: nat)
      requires Valid()
      modifies this
      ensures Valid()
      ensures counts == Pruned(old(counts), maxEntries) && KeepsNewest(old(counts), maxEntries, counts)
    {
      hide Pruned, KeepsNewest, ZeroFree;
      PruneKeepsNewest(counts, maxEntries);
      NewestZeroFree(counts, maxEntries, Pruned(counts, maxEntries));
      PrunedSmall(counts, maxEntries);
      if |counts| <= maxEntries { return; }
      DroppingStart(counts, maxEntries);
      AgeLessTotal();
      var byAge := Sorted(Ages(counts), AgeLess);
      EraseOldest(byAge, maxEntries);
    }

    /** The erasing loop over the entries sorted by age. */
    method EraseOldest(byAge: seq<(nat, string)>, maxEntries: nat)
      requires Dropping(counts, counts, byAge, 0, maxEntries) && |counts| > maxEntries
      modifies this
      ensures counts == Pruned(old(counts), maxEntries)
    {
      hide Dropping, Pruned;
      var toDrop := |counts| - maxEntries;
      var i := 0;
      while i < toDrop
        invariant 0 <= i <= toDrop && Dropping(old(counts), counts, byAge, i, maxEntries)
      {
        DroppingNext(old(counts), counts, byAge, i, maxEntries);
        counts := counts - {byAge[i].1};
        i := i + 1;
      }
      DroppingEnd(old(counts), counts, byAge, i, maxEntries);
    }

    /** The pairwise comparison, as two scans. */
    static method Compare(a: Clock, b: Clock) returns (o: Ordering)
      requires ZeroFree(a) && ZeroFree(b)
      ensures o == Order(a, b)
    {
      var aGreater, bGreater := false, false;
      var todo := a.Keys;
      while todo != {}
        invariant todo <= a.Keys
        invariant aGreater <==> exists id :: id in a.Keys - todo && Count(a, id) > Count(b, id)
        invariant bGreater <==> exists id :: id in a.Keys - todo && Count(b, id) > Count(a, id)
        decreases |todo|
      {
        var id :| id in todo;
        var bv := Count(b, id);
        if a[id].counter > bv {
          aGreater := true;
        } else if bv > a[id].counter {
          bGreater := true;
        }
        todo := todo - {id};
      }
      todo := b.Keys;
      while todo != {}
        invariant todo <= b.Keys
        invariant aGreater <==> exists id :: id in a && Count(a, id) > Count(b, id)
        invariant bGreater <==> exists id :: (id in a || id in b.Keys - todo) && Count(b, id) > Count(a, id)
        decreases |todo|
      {
        var id :| id in todo;
        if id !in a { bGreater := true; }
        todo := todo - {id};
      }
      LeqPointwise(a, b);
      LeqPointwise(b, a);
      o := if !aGreater && !bGreater then Equal
      else if aGreater && !bGreater then ADominates
      else if bGreater && !aGreater then BDominates
      else Concurrent;
    }

    static method Merge(a: Clock, b: Clock) returns (m: Clock)
      ensures m == Merged(a, b)
      ensures forall id ::
                if id in b && b[id].counter > Count(a, id) then id in m && m[id] == b[id]
                else (id in m <==> id in a) && (id in a ==> m[id] == a[id])
    {
      m := a;
      var todo := b.Keys;
      while todo != {}
        invariant todo <= b.Keys
        invariant MergedOn(a, b, b.Keys - todo, m)
        decreases |todo|
      {
        var id :| id in todo;
        if b[id].counter > Count(m, id) {
          m := m[id := b[id]];
        }
        todo := todo - {id};
      }
      MergedOnAll(a, b, m);
    }

    /** `operator==`: same size and every entry of `a` matched in `b`. */
    static method Equals(a: Clock, b: Clock) returns (eq: bool)
      requires ZeroFree(a) && ZeroFree(b)
      ensures eq <==> Order(a, b) == Equal
    {
      hide Order, ZeroFree;
      MatchedIsEqual(a, b);
      if |a| != |b| { return false; }
      var todo := a.Keys;
      while todo != {}
        invariant todo <= a.Keys
        invariant forall id | id in a && id !in todo :: id in b && b[id].counter == a[id].counter
        decreases |todo|
      {
        var id :| id in todo;
        if id !in b || b[id].counter != a[id].counter { return false; }
        todo := todo - {id};
      }
      return true;
    }
  }

  /** After `i` of the entries sorted by age have been erased from `c`. */
  ghost predicate Dropping(c: Clock, cur: Clock, byAge: seq<(nat, string)>, i: nat, k: nat) {
    && StrictTotal(AgeLess) && i <= |byAge| == |c| && |cur| == |c| - i
    && byAge[i..] == Sorted(Ages(cur), AgeLess) && Pruned(cur, k) == Pruned(c, k)
  }

  lemma DroppingStart(c: Clock, k: nat)
    ensures StrictTotal(AgeLess) && Dropping(c, c, Sorted(Ages(c), AgeLess), 0, k)
  {
    hide Pruned, Ages;
    AgeLessTotal();
    AgesSize(c);
  }

  lemma DroppingNext(c: Clock, cur: Clock, byAge: seq<(nat, string)>, i: nat, k: nat)
    requires Dropping(c, cur, byAge, i, k) && |c| - i > k
    ensures i < |byAge| && Dropping(c, cur - {byAge[i].1}, byAge, i + 1, k)
  {
    hide StrictTotal, Ages;
    DropOldest(cur);
    assert byAge[i..][0] == byAge[i] && byAge[i..][1..] == byAge[i + 1..];
  }

  lemma DroppingEnd(c: Clock, cur: Clock, byAge: seq<(nat, string)>, i: nat, k: nat)
    requires Dropping(c, cur, byAge, i, k) && |c| - i <= k
    ensures cur == Pruned(c, k)
  {
    hide StrictTotal, Ages;
  }

  lemma PrunedSmall(c: Clock, k: nat)
    ensures |c| <= k ==> Pruned(c, k) == c
  {
  }

  lemma NewestZeroFree(c: Clock, k: nat, r: Clock)
    requires ZeroFree(c) && KeepsNewest(c, k, r)
    ensures ZeroFree(r)
  {
  }

  /** Clocks of one size are equal exactly when every entry of one is matched in the other. */
  lemma MatchedIsEqual(a: Clock, b: Clock)
    requires ZeroFree(a) && ZeroFree(b)
    ensures Order(a, b) == Equal <==> |a| == |b| && forall id | id in a :: id in b && b[id].counter == a[id].counter
  {
    hide Order;
    EqualMeansSameCounts(a, b);
    assert a.Keys == Counts(a).Keys && b.Keys == Counts(b).Keys;
    assert |a| == |a.Keys| && |b| == |b.Keys|;
    if |a| == |b| && forall id | id in a :: id in b && b[id].counter == a[id].counter {
      assert a.Keys <= b.Keys;
      SubsetSize(a.Keys, b.Keys);
      assert Counts(a) == Counts(b);
    }
    if Counts(a) == Counts(b) {
      forall id | id in a ensures id in b && b[id].counter == a[id].counter { assert Counts(a)[id] == Counts(b)[id]; }
    }
  }

  /** The merge with only the entries of `done` taken from `b` so far. */
  ghost predicate MergedOn(a: Clock, b: Clock, done: set<string>, m: Clock) {
    forall id :: if id in done && id in b && b[id].counter > Count(a, id) then id in m && m[id] == b[id]
                 else (id in m <==> id in a) && (id in a ==> m[id] == a[id])
  }

  lemma MergedOnAll(a: Clock, b: Clock, m: Clock)
    requires MergedOn(a, b, b.Keys, m)
    ensures m == Merged(a, b)
  {
    var r := Merged(a, b);
    forall id ensures id in m <==> id in r {}
    forall id | id in m ensures m[id] == r[id] {}
  }

  /** Dropping the first of the entries sorted by age is dropping the oldest. */
  lemma DropOldest(c: Clock)
    requires c != map[]
    ensures StrictTotal(AgeLess)
    ensures
      var order := Sorted(Ages(c), AgeLess);
      order != [] && order[0].1 == Oldest(c) && order[1..] == Sorted(Ages(c - {Oldest(c)}), AgeLess)
    ensures |c - {Oldest(c)}| == |c| - 1
  {
    AgeLessTotal();
    DropSize(c, Oldest(c));
    assert Age(c, Oldest(c)) in Ages(c);
    var x := Least(Ages(c), AgeLess);
    assert x.1 == Oldest(c);
    var d := c - {Oldest(c)};
    assert Ages(d) == Ages(c) - {x} by {
      forall y ensures y in Ages(d) <==> y in Ages(c) - {x} {
        if y in Ages(d) {
          var j :| j in d && y == Age(d, j);
          assert Age(c, j) == y && AgeLess(x, y);
        }
        if y in Ages(c) - {x} {
          var j :| j in c && y == Age(c, j);
          assert j in d && Age(d, j) == y;
        }
      }
    }
  }
}
