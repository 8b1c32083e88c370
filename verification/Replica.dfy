/**
 What one replica does with a replicated version: keep its copy when that copy
 strictly dominates, otherwise overwrite it.
 */
module Replica {
  import opened Text
  import opened Orders
  import opened Clocks
  import opened Base64
  import opened Versions

  /** The stored version after one REPLICATE (also one hint delivery or remote repair). */
  function Replicated(stored: Option<Version>, incoming: Version): Version {
    if stored.Some? && Order(stored.value.clock, incoming.clock) == ADominates then stored.value
    else incoming
  }

  function ReplicateAll(stored: Option<Version>, vs: seq<Version>): Option<Version> {
    if vs == [] then stored
    else Some(Replicated(ReplicateAll(stored, vs[..|vs| - 1]), vs[|vs| - 1]))
  }

  predicate Comparable(a: Clock, b: Clock) { Leq(a, b) || Leq(b, a) }

  ghost predicate PairwiseComparable(vs: seq<Version>) {
    forall a, b | a in vs && b in vs :: Comparable(a.clock, b.clock)
  }

  /** `v` is one of `vs` and its clock is equal to or dominates every one of theirs. */
  ghost predicate IsGreatest(v: Version, vs: seq<Version>) {
    v in vs && forall u | u in vs :: Leq(u.clock, v.clock)
  }

  /** One step never leaves a strictly older version than it found. */
  lemma OneStepNeverRegresses(stored: Version, incoming: Version)
    ensures Order(Replicated(Some(stored), incoming).clock, stored.clock) != BDominates
  {
  }

  /** Two steps can: through a concurrent version the replica goes back to its own past. */
  lemma TwoStepsCanRegress()
    ensures
      var a2: Clock := map["a" := Entry(2, 0)];
      var b1: Clock := map["b" := Entry(1, 0)];
      var a1: Clock := map["a" := Entry(1, 0)];
      var end := ReplicateAll(Some(Version([], a2, false)), [Version([], b1, false), Version([], a1, false)]);
      end.Some? && Order(a2, end.value.clock) == ADominates
  {
    var a2: Clock := map["a" := Entry(2, 0)];
    var b1: Clock := map["b" := Entry(1, 0)];
    var a1: Clock := map["a" := Entry(1, 0)];
    var v, w := Version([], b1, false), Version([], a1, false);
    assert !Leq(a2, b1) && !Leq(b1, a2) by { assert "a" in a2 && "b" in b1; }
    assert !Leq(b1, a1) && !Leq(a1, b1) by { assert "a" in a1 && "b" in b1; }
    assert [v, w][..1] == [v] && [v][..0] == [];
    assert ReplicateAll(Some(Version([], a2, false)), [v]) == Some(v);
    assert ReplicateAll(Some(Version([], a2, false)), [v, w]) == Some(w);
    assert Leq(a1, a2) && !Leq(a2, a1) by { assert "a" in a2; }
  }

  /** Pairwise comparable deliveries, whatever their order and repetition, end on the greatest clock. */
  lemma {:induction false} EndsOnGreatest(vs: seq<Version>)
    requires vs != [] && PairwiseComparable(vs)
    ensures ReplicateAll(None, vs).Some? && IsGreatest(ReplicateAll(None, vs).value, vs)
    decreases |vs|
  {
    var init, last := vs[..|vs| - 1], vs[|vs| - 1];
    assert forall x :: x in vs <==> x in init || x == last;
    if init != [] {
      EndsOnGreatest(init);
      var held := ReplicateAll(None, init).value;
      forall u | u in vs ensures Leq(u.clock, Replicated(Some(held), last).clock) {
        if u in init && Leq(held.clock, last.clock) { LeqTrans(u.clock, held.clock, last.clock); }
      }
    }
  }

  /** The same with a copy already stored, provided it too is comparable to the rest. */
  lemma EndsOnGreatestFrom(stored: Version, vs: seq<Version>)
    requires PairwiseComparable([stored] + vs)
    ensures ReplicateAll(Some(stored), vs).Some? && IsGreatest(ReplicateAll(Some(stored), vs).value, [stored] + vs)
  {
    StoredIsDelivered(stored, vs);
    EndsOnGreatest([stored] + vs);
  }

  lemma {:induction false} StoredIsDelivered(stored: Version, vs: seq<Version>)
    ensures ReplicateAll(Some(stored), vs) == ReplicateAll(None, [stored] + vs)
    decreases |vs|
  {
    var all := [stored] + vs;
    if vs == [] {
      assert all[..0] == [];
    } else {
      assert all[..|all| - 1] == [stored] + vs[..|vs| - 1];
      StoredIsDelivered(stored, vs[..|vs| - 1]);
    }
  }

  /** Replicas that received the same versions agree on the clock they hold. */
  lemma SameDeliveriesSameClock(xs: seq<Version>, ys: seq<Version>)
    requires xs != [] && PairwiseComparable(xs) && Elements(xs) == Elements(ys)
    ensures ReplicateAll(None, xs).Some? && ReplicateAll(None, ys).Some?
    ensures Order(ReplicateAll(None, xs).value.clock, ReplicateAll(None, ys).value.clock) == Equal
  {
    assert xs[0] in Elements(ys);
    assert forall v :: v in xs <==> v in Elements(xs);
    assert forall v :: v in ys <==> v in Elements(ys);
    EndsOnGreatest(xs);
    EndsOnGreatest(ys);
  }

  /** Pairwise comparability is not only enough but needed. */
  lemma OrderInsensitiveExactly(vs: seq<Version>)
    ensures PairwiseComparable(vs) <==>
            forall run: seq<Version> | run != [] && Elements(run) <= Elements(vs) ::
              ReplicateAll(None, run).Some? && IsGreatest(ReplicateAll(None, run).value, run)
  {
    assert forall v :: v in vs <==> v in Elements(vs);
    if PairwiseComparable(vs) {
      forall run: seq<Version> | run != [] && Elements(run) <= Elements(vs)
        ensures ReplicateAll(None, run).Some? && IsGreatest(ReplicateAll(None, run).value, run)
      {
        assert forall v | v in run :: v in Elements(run);
        EndsOnGreatest(run);
      }
    } else {
      var a, b :| a in vs && b in vs && !Comparable(a.clock, b.clock);
      var run := [a, b];
      assert run[..1] == [a] && [a][..0] == [];
      assert ReplicateAll(None, [a]) == Some(a);
      assert ReplicateAll(None, run) == Some(b);
      assert a in run && !IsGreatest(b, run);
      assert Elements(run) <= Elements(vs);
    }
  }

  // -------------------------------------------------------------------------
  // The storage cell
  // -------------------------------------------------------------------------

  /** The byte store: it holds serialized versions and knows nothing of clocks. */
  class Storage {
    var cells: map<string, string>

    constructor ()
      ensures cells == map[]
    {
      cells := map[];
    }

    function Read(key: string): Option<Version>
      reads this
    {
      if key in cells then Some(Deserialize(cells[key])) else None
    }

    method Put(key: string, stored: string)
      modifies this
      ensures cells == old(cells)[key := stored]
    {
      cells := cells[key := stored];
    }

    method ApplyReplicate(key: string, incoming: Version) returns (written: bool)
      requires ZeroFree(incoming.clock)
      modifies this
      ensures written <==> old(Read(key)).None? || Order(old(Read(key)).value.clock, incoming.clock) != ADominates
      ensures cells == if written then old(cells)[key := Serialize(incoming)] else old(cells)
      ensures Storable(incoming.clock) ==> Read(key) == Some(Replicated(old(Read(key)), incoming))
    {
      hide Serialize, Deserialize, Storable;
      if Storable(incoming.clock) { StorageRoundTrip(incoming); }
      if key in cells {
        var local := Deserialize(cells[key]);
        DeserializedZeroFree(cells[key]);
        var o := VectorClock.Compare(local.clock, incoming.clock);
        if o == ADominates { return false; }
      }
      Put(key, Serialize(incoming));
      return true;
    }
  }

  lemma DeserializedZeroFree(stored: string)
    ensures ZeroFree(Deserialize(stored).clock)
  {
    hide ParseClock, Decode;
    var bar := IndexOf(stored, '|');
    if bar < |stored| {
      var rest := stored[bar + 1..];
      ParseClockZeroFree(rest);
      ParseClockZeroFree(rest[..IndexOf(rest, '|')]);
    }
  }

  lemma ParseClockZeroFree(s: string)
    ensures ZeroFree(ParseClock(s))
  {
    AbsorbAllZeroFree(Split(s, ','));
  }
}
