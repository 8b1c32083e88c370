/**
 The consistent-hash ring on values: positions to whatever sits there, and the
 preference list a key reads off it clockwise.  Both routers are proved against
 this one definition.  The hash is a parameter.
 */
module Ring {
  import opened Orders

  // -------------------------------------------------------------------------
  // Walking the circle
  // -------------------------------------------------------------------------

  function Keys(s: set<nat>): (ks: seq<nat>)
    ensures Ascending(ks, NatLess) && Elements(ks) == s && |ks| == |s|
  {
    NatLessTotal();
    Sorted(s, NatLess)
  }

  lemma KeysIn(s: set<nat>)
    ensures forall k :: k in Keys(s) <==> k in s
  {
    assert forall k :: k in Keys(s) <==> k in Elements(Keys(s));
  }

  function From<T>(ring: map<nat, T>, h: nat): set<nat> { set p | p in ring && p >= h }

  function Before<T>(ring: map<nat, T>, h: nat): set<nat> { set p | p in ring && p < h }

  /** The positions in the order a clockwise walk from `h` meets them. */
  function Clockwise<T>(ring: map<nat, T>, h: nat): seq<nat> {
    Keys(From(ring, h)) + Keys(Before(ring, h))
  }

  lemma ClockwiseIn<T>(ring: map<nat, T>, h: nat)
    ensures |Clockwise(ring, h)| == |ring|
    ensures forall p :: p in Clockwise(ring, h) <==> p in ring
  {
    assert From(ring, h) + Before(ring, h) == ring.Keys;
    KeysIn(From(ring, h));
    KeysIn(Before(ring, h));
  }

  function At<T>(ring: map<nat, T>, ps: seq<nat>): seq<T>
    requires forall p | p in ps :: p in ring
  {
    seq(|ps|, i requires 0 <= i < |ps| => ring[ps[i]])
  }

  /** What the walk meets, once around. */
  function Circle<T>(ring: map<nat, T>, h: nat): seq<T> {
    ClockwiseIn(ring, h);
    At(ring, Clockwise(ring, h))
  }

  /** Each element once, in order of first occurrence. */
  function Firsts<T(==)>(s: seq<T>): seq<T> {
    if s == [] then []
    else
      var d := Firsts(s[..|s| - 1]);
      if s[|s| - 1] in d then d else d + [s[|s| - 1]]
  }

  /** The full preference list of a key hashing to `h`. */
  function Preference<T(==)>(ring: map<nat, T>, h: nat): seq<T> { Firsts(Circle(ring, h)) }

  function Prefix<T>(s: seq<T>, n: nat): seq<T> { if n <= |s| then s[..n] else s }

  /** A replica count of zero or less means one. */
  function Wanted(n: int): nat { if n <= 0 then 1 else n }

  // -------------------------------------------------------------------------
  // First occurrences
  // -------------------------------------------------------------------------

  lemma {:induction false} FirstsElements<T>(s: seq<T>)
    ensures Elements(Firsts(s)) == Elements(s)
    ensures forall i, j | 0 <= i < j < |Firsts(s)| :: Firsts(s)[i] != Firsts(s)[j]
    ensures |Firsts(s)| == |Elements(s)|
  {
    if s != [] {
      var init, x := s[..|s| - 1], s[|s| - 1];
      FirstsElements(init);
      assert s == init + [x];
      assert Elements(s) == Elements(init) + {x};
      assert x in Firsts(init) <==> x in Elements(Firsts(init));
    }
    DistinctSize(Firsts(s));
  }

  /** A shorter walk collects a prefix of what a longer one does. */
  lemma {:induction false} FirstsPrefix<T>(s: seq<T>, k: nat)
    requires k <= |s|
    ensures Firsts(s[..k]) <= Firsts(s)
    decreases |s| - k
  {
    if k < |s| {
      FirstsPrefix(s, k + 1);
      assert s[..k + 1][..k] == s[..k];
    } else {
      assert s[..k] == s;
    }
  }

  lemma FirstsNext<T>(s: seq<T>, k: nat)
    requires k < |s|
    ensures Firsts(s[..k + 1]) == if s[k] in Firsts(s[..k]) then Firsts(s[..k]) else Firsts(s[..k]) + [s[k]]
  {
    assert s[..k + 1][..k] == s[..k];
  }

  // -------------------------------------------------------------------------
  // Removing a node
  // -------------------------------------------------------------------------

  function Without<T(==)>(s: seq<T>, x: T): seq<T> {
    if s == [] then []
    else Without(s[..|s| - 1], x) + if s[|s| - 1] == x then [] else [s[|s| - 1]]
  }

  lemma {:induction false} WithoutConcat<T>(a: seq<T>, b: seq<T>, x: T)
    ensures Without(a + b, x) == Without(a, x) + Without(b, x)
    decreases |b|
  {
    if b == [] {
      assert a + b == a;
    } else {
      assert (a + b)[..|a + b| - 1] == a + b[..|b| - 1];
      WithoutConcat(a, b[..|b| - 1], x);
    }
  }

  lemma {:induction false} WithoutIn<T>(s: seq<T>, x: T, y: T)
    ensures y in Without(s, x) <==> y in s && y != x
    decreases |s|
  {
    if s != [] {
      WithoutIn(s[..|s| - 1], x, y);
      assert y in s <==> y in s[..|s| - 1] || y == s[|s| - 1];
    }
  }

  lemma WithoutSnoc<T>(s: seq<T>, y: T, x: T)
    ensures Without(s + [y], x) == Without(s, x) + if y == x then [] else [y]
  {
    assert (s + [y])[..|s|] == s;
  }

  lemma FirstsSnoc<T>(s: seq<T>, y: T)
    ensures Firsts(s + [y]) == if y in Firsts(s) then Firsts(s) else Firsts(s) + [y]
  {
    assert (s + [y])[..|s|] == s;
  }

  lemma FirstsWithoutSnoc<T>(init: seq<T>, y: T, x: T)
    requires Firsts(Without(init, x)) == Without(Firsts(init), x)
    ensures Firsts(Without(init + [y], x)) == Without(Firsts(init + [y]), x)
  {
    hide Without, Firsts;
    WithoutSnoc(init, y, x);
    FirstsSnoc(init, y);
    WithoutSnoc(Firsts(init), y, x);
    FirstsSnoc(Without(init, x), y);
    WithoutIn(Firsts(init), x, y);
    if y == x { assert Without(init, x) + [] == Without(init, x); }
  }

  /** Dropping a node commutes with keeping first occurrences. */
  lemma {:induction false} FirstsWithout<T>(s: seq<T>, x: T)
    ensures Firsts(Without(s, x)) == Without(Firsts(s), x)
    decreases |s|
  {
    if s != [] {
      assert s == s[..|s| - 1] + [s[|s| - 1]];
      FirstsWithout(s[..|s| - 1], x);
      FirstsWithoutSnoc(s[..|s| - 1], s[|s| - 1], x);
    }
  }

  function Cleared<T(==)>(ring: map<nat, T>, x: T): map<nat, T> {
    map p | p in ring && ring[p] != x :: ring[p]
  }

  /** Dropping the positions of `x` from a list of positions. */
  function Kept<T(==)>(ring: map<nat, T>, ps: seq<nat>, x: T): seq<nat>
    requires forall p | p in ps :: p in ring
  {
    if ps == [] then []
    else
      var init, p := ps[..|ps| - 1], ps[|ps| - 1];
      Kept(ring, init, x) + if ring[p] == x then [] else [p]
  }

  lemma {:induction false} KeptIn<T>(ring: map<nat, T>, ps: seq<nat>, x: T, q: nat)
    requires forall p | p in ps :: p in ring
    ensures q in Kept(ring, ps, x) <==> q in ps && ring[q] != x
    decreases |ps|
  {
    if ps != [] {
      KeptIn(ring, ps[..|ps| - 1], x, q);
      assert q in ps <==> q in ps[..|ps| - 1] || q == ps[|ps| - 1];
    }
  }

  lemma {:induction false} KeptAscending<T>(ring: map<nat, T>, ps: seq<nat>, x: T)
    requires Ascending(ps, NatLess) && forall p | p in ps :: p in ring
    ensures Ascending(Kept(ring, ps, x), NatLess)
    decreases |ps|
  {
    if ps != [] {
      var init, p := ps[..|ps| - 1], ps[|ps| - 1];
      var r := Kept(ring, init, x);
      KeptAscending(ring, init, x);
      forall i | 0 <= i < |r| ensures NatLess(r[i], p) {
        KeptIn(ring, init, x, r[i]);
        var j :| 0 <= j < |init| && init[j] == r[i];
        assert NatLess(ps[j], ps[|ps| - 1]);
      }
    }
  }

  lemma KeptKnown<T>(ring: map<nat, T>, ps: seq<nat>, x: T)
    requires forall p | p in ps :: p in ring
    ensures forall p | p in Kept(ring, ps, x) :: p in ring
  {
    forall p | p in Kept(ring, ps, x) ensures p in ring { KeptIn(ring, ps, x, p); }
  }

  lemma {:induction false} KeptValues<T>(ring: map<nat, T>, ps: seq<nat>, x: T)
    requires forall p | p in ps :: p in ring
    ensures forall p | p in Kept(ring, ps, x) :: p in ring
    ensures At(ring, Kept(ring, ps, x)) == Without(At(ring, ps), x)
    decreases |ps|
  {
    KeptKnown(ring, ps, x);
    if ps == [] {
      assert At(ring, ps) == [];
    } else {
      KeptKnown(ring, ps[..|ps| - 1], x);
      KeptValues(ring, ps[..|ps| - 1], x);
      KeptValuesSnoc(ring, ps[..|ps| - 1], ps[|ps| - 1], x);
      assert ps == ps[..|ps| - 1] + [ps[|ps| - 1]];
    }
  }

  lemma KeptValuesSnoc<T>(ring: map<nat, T>, init: seq<nat>, p: nat, x: T)
    requires (forall q | q in init :: q in ring) && p in ring && forall q | q in Kept(ring, init, x) :: q in ring
    requires At(ring, Kept(ring, init, x)) == Without(At(ring, init), x)
    ensures forall q | q in init + [p] :: q in ring
    ensures
      var r := Kept(ring, init, x) + if ring[p] == x then [] else [p];
      (forall q | q in r :: q in ring) && At(ring, r) == Without(At(ring, init + [p]), x)
  {
    hide Without, At, Kept;
    AtSnoc(ring, init, p);
    WithoutSnoc(At(ring, init), ring[p], x);
    if ring[p] != x {
      AtSnoc(ring, Kept(ring, init, x), p);
    } else {
      assert Kept(ring, init, x) + [] == Kept(ring, init, x);
    }
  }

  lemma AtSnoc<T>(ring: map<nat, T>, ps: seq<nat>, p: nat)
    requires (forall q | q in ps :: q in ring) && p in ring
    ensures At(ring, ps + [p]) == At(ring, ps) + [ring[p]]
  {
  }

  lemma ClearedHalf<T>(ring: map<nat, T>, x: T, s: set<nat>, t: set<nat>)
    requires s <= ring.Keys && t == set p | p in s && ring[p] != x
    ensures (forall p | p in Keys(s) :: p in ring) && forall p | p in Keys(t) :: p in ring
    ensures At(ring, Keys(t)) == Without(At(ring, Keys(s)), x)
  {
    NatLessTotal();
    KeysIn(s);
    KeysIn(t);
    var r := Kept(ring, Keys(s), x);
    KeptAscending(ring, Keys(s), x);
    KeptValues(ring, Keys(s), x);
    forall p ensures p in Elements(r) <==> p in t { KeptIn(ring, Keys(s), x, p); }
    AscendingUnique(Keys(t), r, NatLess);
  }

  lemma CircleHalves<T>(ring: map<nat, T>, h: nat)
    ensures (forall p | p in Keys(From(ring, h)) :: p in ring) && forall p | p in Keys(Before(ring, h)) :: p in ring
    ensures Circle(ring, h) == At(ring, Keys(From(ring, h))) + At(ring, Keys(Before(ring, h)))
  {
    hide Keys;
    KeysIn(From(ring, h));
    KeysIn(Before(ring, h));
  }

  lemma ClearedAt<T>(ring: map<nat, T>, x: T, ps: seq<nat>)
    requires forall p | p in ps :: p in Cleared(ring, x)
    ensures At(Cleared(ring, x), ps) == At(ring, ps)
  {
    forall i | 0 <= i < |ps| ensures At(Cleared(ring, x), ps)[i] == At(ring, ps)[i] { assert ps[i] in ps; }
  }

  /** Removing a node's vnodes turns every walk into the same walk with the node skipped. */
  lemma CircleWithout<T>(ring: map<nat, T>, x: T, h: nat)
    ensures Circle(Cleared(ring, x), h) == Without(Circle(ring, h), x)
  {
    hide Circle, Keys, Without;
    var c := Cleared(ring, x);
    KeysIn(From(c, h));
    KeysIn(Before(c, h));
    ClearedHalf(ring, x, From(ring, h), From(c, h));
    ClearedHalf(ring, x, Before(ring, h), Before(c, h));
    CircleHalves(ring, h);
    CircleHalves(c, h);
    ClearedAt(ring, x, Keys(From(c, h)));
    ClearedAt(ring, x, Keys(Before(c, h)));
    WithoutConcat(At(ring, Keys(From(ring, h))), At(ring, Keys(Before(ring, h))), x);
  }

  /** Minimal disruption: removing a node filters it out of every preference list and does nothing else. */
  lemma RemovalFiltersPreference<T>(ring: map<nat, T>, x: T, h: nat)
    ensures Preference(Cleared(ring, x), h) == Without(Preference(ring, h), x)
  {
    CircleWithout(ring, x, h);
    FirstsWithout(Circle(ring, h), x);
  }

  lemma {:induction false} WithoutAbsent<T>(s: seq<T>, x: T)
    requires x !in s
    ensures Without(s, x) == s
    decreases |s|
  {
    if s != [] {
      assert s == s[..|s| - 1] + [s[|s| - 1]];
      WithoutAbsent(s[..|s| - 1], x);
    }
  }

  /** The first `n` owners of a key that the removed node did not own stay the same. */
  lemma UnownedKeysUndisturbed<T>(ring: map<nat, T>, x: T, h: nat, n: nat)
    requires x !in Prefix(Preference(ring, h), n)
    ensures Prefix(Preference(Cleared(ring, x), h), n) == Prefix(Preference(ring, h), n)
  {
    hide Preference, Without;
    var p := Preference(ring, h);
    RemovalFiltersPreference(ring, x, h);
    if n <= |p| {
      assert p == p[..n] + p[n..];
      WithoutConcat(p[..n], p[n..], x);
      WithoutAbsent(p[..n], x);
    } else {
      WithoutAbsent(p, x);
    }
  }

  // -------------------------------------------------------------------------
  // The walk over sorted positions
  // -------------------------------------------------------------------------

  /** `lower_bound(h)`: the index of the first position at or after `h`. */
  function LowerBound<T>(ring: map<nat, T>, h: nat): (i: nat)
    ensures i <= |ring|
  {
    SubsetSize(Before(ring, h), ring.Keys);
    |Before(ring, h)|
  }

  /** The index `m` steps from `start` on a circle of `n`. */
  function Around(start: nat, m: nat, n: nat): nat
    requires start <= n && m < n
  {
    if start + m < n then start + m else start + m - n
  }

  lemma AscendingConcat(b: seq<nat>, f: seq<nat>, h: nat)
    requires Ascending(b, NatLess) && Ascending(f, NatLess)
    requires (forall i | 0 <= i < |b| :: b[i] < h) && forall i | 0 <= i < |f| :: f[i] >= h
    ensures Ascending(b + f, NatLess)
  {
  }

  lemma ElementsConcat(b: seq<nat>, f: seq<nat>)
    ensures Elements(b + f) == Elements(b) + Elements(f)
  {
  }

  lemma HalvesBounded<T>(ring: map<nat, T>, h: nat)
    ensures forall i | 0 <= i < |Keys(Before(ring, h))| :: Keys(Before(ring, h))[i] < h
    ensures forall i | 0 <= i < |Keys(From(ring, h))| :: Keys(From(ring, h))[i] >= h
    ensures Before(ring, h) + From(ring, h) == ring.Keys
  {
    hide Keys;
    KeysIn(Before(ring, h));
    KeysIn(From(ring, h));
    forall i | 0 <= i < |Keys(Before(ring, h))| ensures Keys(Before(ring, h))[i] < h {
      assert Keys(Before(ring, h))[i] in Keys(Before(ring, h));
    }
    forall i | 0 <= i < |Keys(From(ring, h))| ensures Keys(From(ring, h))[i] >= h {
      assert Keys(From(ring, h))[i] in Keys(From(ring, h));
    }
  }

  lemma KeysSplit<T>(ring: map<nat, T>, h: nat)
    ensures Keys(ring.Keys) == Keys(Before(ring, h)) + Keys(From(ring, h))
    ensures |Keys(Before(ring, h))| == LowerBound(ring, h)
  {
    hide Keys, From, Before, Ascending, StrictTotal, Elements;
    NatLessTotal();
    var b, f := Keys(Before(ring, h)), Keys(From(ring, h));
    HalvesBounded(ring, h);
    AscendingConcat(b, f, h);
    ElementsConcat(b, f);
    AscendingUnique(Keys(ring.Keys), b + f, NatLess);
  }

  /** Stepping through the sorted positions from the lower bound, wrapping at the end, is the clockwise walk. */
  lemma WalkIsClockwise<T>(ring: map<nat, T>, h: nat, m: nat)
    requires m < |ring|
    ensures |Keys(ring.Keys)| == |ring| == |Clockwise(ring, h)|
    ensures Keys(ring.Keys)[Around(LowerBound(ring, h), m, |ring|)] == Clockwise(ring, h)[m]
  {
    hide Keys, LowerBound;
    ClockwiseIn(ring, h);
    KeysSplit(ring, h);
    Rotate(Keys(Before(ring, h)), Keys(From(ring, h)), m);
  }

  lemma Rotate(b: seq<nat>, f: seq<nat>, m: nat)
    requires m < |b| + |f|
    ensures (b + f)[Around(|b|, m, |b| + |f|)] == (f + b)[m]
  {
  }

  lemma CircleAt<T>(ring: map<nat, T>, h: nat, m: nat)
    requires m < |ring|
    ensures |Clockwise(ring, h)| == |ring| == |Circle(ring, h)|
    ensures Clockwise(ring, h)[m] in ring && Circle(ring, h)[m] == ring[Clockwise(ring, h)[m]]
  {
    hide Clockwise;
    ClockwiseIn(ring, h);
    assert Clockwise(ring, h)[m] in Clockwise(ring, h);
  }

  /** A preference list names everything on the ring, once each. */
  lemma PreferenceComplete<T>(ring: map<nat, T>, h: nat)
    ensures Elements(Preference(ring, h)) == ring.Values && |Preference(ring, h)| == |ring.Values|
    ensures forall i, j | 0 <= i < j < |Preference(ring, h)| :: Preference(ring, h)[i] != Preference(ring, h)[j]
  {
    hide Clockwise, Firsts;
    FirstsElements(Circle(ring, h));
    var ps := Clockwise(ring, h);
    ClockwiseIn(ring, h);
    forall x ensures x in Elements(Circle(ring, h)) <==> x in ring.Values {
      if x in ring.Values {
        var p :| p in ring && ring[p] == x;
        assert p in ps;
        var i :| 0 <= i < |ps| && ps[i] == p;
        assert Circle(ring, h)[i] == x;
      }
    }
  }

  /** How many different things sit on the ring. */
  function OnRing<T(==)>(ring: map<nat, T>): nat { |ring.Values| }

  lemma PreferenceSize<T>(ring: map<nat, T>, h: nat)
    ensures |Firsts(Circle(ring, h))| == |Preference(ring, h)| == OnRing(ring)
  {
    PreferenceComplete(ring, h);
  }

  // -------------------------------------------------------------------------
  // Nearness
  // -------------------------------------------------------------------------

  /** How far clockwise `p` is from `h` on a circle of `size` positions. */
  function Distance(h: nat, p: nat, size: nat): nat
    requires h < size && p < size
  {
    if p >= h then p - h else p + size - h
  }

  ghost predicate Fits<T>(ring: map<nat, T>, size: nat) { forall p | p in ring :: p < size }

  /** The walk meets the positions in order of their clockwise distance from the key. */
  lemma ClockwiseByDistance<T>(ring: map<nat, T>, h: nat, size: nat, i: nat, j: nat)
    requires h < size && Fits(ring, size) && i < j < |Clockwise(ring, h)|
    ensures
      var c := Clockwise(ring, h);
      c[i] in ring && c[j] in ring && Distance(h, c[i], size) < Distance(h, c[j], size)
  {
    hide Keys;
    var f, b := Keys(From(ring, h)), Keys(Before(ring, h));
    ClockwiseIn(ring, h);
    assert Clockwise(ring, h)[i] in Clockwise(ring, h) && Clockwise(ring, h)[j] in Clockwise(ring, h);
    HalvesBounded(ring, h);
    if j < |f| { assert NatLess(f[i], f[j]); }
    if i >= |f| { assert NatLess(b[i - |f|], b[j - |f|]); }
  }

  /** Of two entries kept, the earlier occurred before the later ever did. */
  lemma {:induction false} FirstsOrder<T>(s: seq<T>, i: nat, j: nat) returns (k: nat)
    requires i < j < |Firsts(s)|
    ensures k < |s| && s[k] == Firsts(s)[i] && forall l | 0 <= l <= k :: s[l] != Firsts(s)[j]
    decreases |s|
  {
    var init, x := s[..|s| - 1], s[|s| - 1];
    if j < |Firsts(init)| {
      k := FirstsOrder(init, i, j);
    } else {
      FirstsElements(init);
      assert Firsts(init)[i] in Elements(Firsts(init));
      k :| 0 <= k < |init| && init[k] == Firsts(init)[i];
      assert forall l | 0 <= l < |init| :: init[l] in Elements(init);
    }
  }

  /** Some position of `x` is nearer to `h` than every position of `y`. */
  ghost predicate Nearer<T>(ring: map<nat, T>, h: nat, size: nat, x: T, y: T)
    requires h < size && Fits(ring, size)
  {
    exists p ::
      && p in ring && ring[p] == x
      && forall q | q in ring && ring[q] == y :: Distance(h, p, size) < Distance(h, q, size)
  }

  /** A preference list is in order of nearness: each node's nearest position is before every position of the next. */
  lemma NearestFirst<T>(ring: map<nat, T>, h: nat, size: nat, i: nat, j: nat)
    requires h < size && Fits(ring, size) && i < j < |Preference(ring, h)|
    ensures Nearer(ring, h, size, Preference(ring, h)[i], Preference(ring, h)[j])
  {
    hide Clockwise, Firsts, Distance;
    var c, circle := Clockwise(ring, h), Circle(ring, h);
    var k := FirstsOrder(circle, i, j);
    ClockwiseIn(ring, h);
    var p := c[k];
    assert p in c;
    forall q | q in ring && ring[q] == Preference(ring, h)[j] ensures Distance(h, p, size) < Distance(h, q, size) {
      var l :| 0 <= l < |c| && c[l] == q;
      assert circle[l] == ring[q];
      ClockwiseByDistance(ring, h, size, k, l);
    }
  }
}
