/**
 The Merkle tree used for anti-entropy: 2^depth leaf buckets over the 64-bit key
 hashes, an XOR in each, and the top-down comparison of two trees.  Depth 1 to
 62, where the original's shifts and sizes are defined.
 */
module Merkle {
  import opened Text
  import opened Bits
  import opened Orders

  predicate Depth(d: nat) { 1 <= d <= 62 }

  /** How many key hashes share a leaf. */
  function Span(d: nat): nat
    requires Depth(d)
  {
    Pow2(64 - d)
  }

  lemma SpanTimes(d: nat)
    requires Depth(d)
    ensures Pow2(d) * Span(d) == TWO64
  {
    hide Pow2;
    Pow2Add(d, 64 - d);
    Pow2Of64();
  }

  function Quot(key: nat, span: nat): nat
    requires span > 0
  {
    key / span
  }

  /** The leaf a key hash falls in: its top `d` bits. */
  function LeafOf(d: nat, key: nat): (leaf: nat)
    requires Depth(d) && key < TWO64
  {
    Quot(key, Span(d))
  }

  lemma LeafBelow(d: nat, key: nat)
    requires Depth(d) && key < TWO64
    ensures LeafOf(d, key) < Pow2(d)
  {
    hide Pow2;
    SpanTimes(d);
    DivBelow(key, Span(d), Pow2(d));
  }

  lemma DivBelow(x: nat, k: nat, n: nat)
    requires k > 0 && x < n * k
    ensures x / k < n
  {
    if x / k >= n { MulMonotone(n, x / k, k); }
  }

  lemma MulMonotone(a: nat, b: nat, k: nat)
    requires a <= b
    ensures a * k <= b * k
  {
  }

  // -------------------------------------------------------------------------
  // Inserting
  // -------------------------------------------------------------------------

  /** One contribution: the node it lands on and what is XORed in. */
  datatype Item = Item(slot: nat, value: bv64)

  function XorAt(t: seq<bv64>, it: Item): (r: seq<bv64>)
    requires it.slot < |t|
    ensures |r| == |t|
  {
    t[it.slot := Xor(t[it.slot], it.value)]
  }

  predicate Fit(items: seq<Item>, n: nat) { forall it | it in items :: it.slot < n }

  function XorAllAt(t: seq<bv64>, items: seq<Item>): (r: seq<bv64>)
    requires Fit(items, |t|)
    ensures |r| == |t|
  {
    if items == [] then t else XorAt(XorAllAt(t, items[..|items| - 1]), items[|items| - 1])
  }

  lemma XorAtSwap(t: seq<bv64>, x: Item, y: Item)
    requires x.slot < |t| && y.slot < |t|
    ensures XorAt(XorAt(t, x), y) == XorAt(XorAt(t, y), x)
  {
    hide Xor;
    if x.slot == y.slot {
      XorLaws(t[x.slot], x.value, y.value);
      XorLaws(t[x.slot], y.value, x.value);
      XorLaws(x.value, y.value, 0);
    }
  }

  function Without(items: seq<Item>, i: nat): (r: seq<Item>)
    requires i < |items|
    ensures |r| == |items| - 1 && forall it | it in r :: it in items
  {
    items[..i] + items[i + 1..]
  }

  /** Any one contribution can be taken to have come last. */
  lemma {:induction false} TakeOut(t: seq<bv64>, items: seq<Item>, i: nat)
    requires Fit(items, |t|) && i < |items|
    ensures items[i].slot < |t| && XorAllAt(t, items) == XorAt(XorAllAt(t, Without(items, i)), items[i])
    decreases |items|
  {
    hide XorAt;
    var n := |items| - 1;
    var last := items[n];
    assert items[i] in items && last in items;
    if i == n {
      assert Without(items, i) == items[..n];
    } else {
      var init := items[..n];
      TakeOut(t, init, i);
      assert Without(items, i)[..n - 1] == Without(init, i) && Without(items, i)[n - 1] == last;
      XorAtSwap(XorAllAt(t, Without(init, i)), items[i], last);
    }
  }

  lemma WithoutItem(xs: seq<Item>, i: nat)
    requires i < |xs|
    ensures multiset(Without(xs, i)) == multiset(xs) - multiset{xs[i]}
  {
    assert xs == xs[..i] + [xs[i]] + xs[i + 1..];
  }

  /** The leaves do not depend on the order of insertion. */
  lemma {:induction false} InsertOrderFree(t: seq<bv64>, xs: seq<Item>, ys: seq<Item>)
    requires Fit(xs, |t|) && Fit(ys, |t|) && multiset(xs) == multiset(ys)
    ensures XorAllAt(t, xs) == XorAllAt(t, ys)
    decreases |xs|
  {
    hide XorAt, XorAllAt, Without;
    if xs == [] {
      assert |multiset(ys)| == 0;
    } else {
      var n := |xs| - 1;
      assert xs[n] in multiset(ys);
      var i :| 0 <= i < |ys| && ys[i] == xs[n];
      WithoutItem(xs, n);
      WithoutItem(ys, i);
      InsertOrderFree(t, Without(xs, n), Without(ys, i));
      TakeOut(t, xs, n);
      TakeOut(t, ys, i);
    }
  }

  // -------------------------------------------------------------------------
  // Building
  // -------------------------------------------------------------------------

  /** `t` has `start` leaves, at positions start to 2 * start - 1. */
  ghost predicate Built(t: seq<bv64>, start: nat) {
    |t| == 2 * start && start >= 1 && forall i | 1 <= i < start :: t[i] == Xor(t[2 * i], t[2 * i + 1])
  }

  /** Node `j` is `i` or below it. */
  predicate Under(i: nat, j: nat)
    decreases j
  {
    j == i || (j > i && Under(i, j / 2))
  }

  /** Below an inner node, a deeper node is below exactly one of the two children. */
  lemma {:induction false} UnderChildren(i: nat, j: nat)
    requires 1 <= i < j
    ensures Under(i, j) <==> Under(2 * i, j) || Under(2 * i + 1, j)
    ensures !(Under(2 * i, j) && Under(2 * i + 1, j))
    decreases j
  {
    if j / 2 > i { UnderChildren(i, j / 2); }
    if j / 2 < i {
      UnderAtMost(i, j / 2);
    }
  }

  lemma UnderAtMost(i: nat, j: nat)
    requires j < i
    ensures !Under(i, j)
  {
  }

  /** Among the leaves only the leaf itself is below a leaf. */
  lemma UnderLeaf(i: nat, j: nat, start: nat)
    requires start <= i < 2 * start && start <= j < 2 * start
    ensures Under(i, j) <==> i == j
  {
    if j > i { UnderAtMost(i, j / 2); }
  }

  function Pick(t: seq<bv64>, i: nat, j: nat): bv64
    requires j < |t|
  {
    if Under(i, j) then t[j] else 0
  }

  /** The XOR of the leaves from `start` to `hi` that lie below node `i`. */
  function LeavesXor(t: seq<bv64>, i: nat, start: nat, hi: nat): bv64
    requires start <= hi <= |t|
    decreases hi - start
  {
    if hi == start then 0 else Xor(LeavesXor(t, i, start, hi - 1), Pick(t, i, hi - 1))
  }

  lemma PickChildren(t: seq<bv64>, i: nat, j: nat)
    requires 1 <= i < j < |t|
    ensures Pick(t, i, j) == Xor(Pick(t, 2 * i, j), Pick(t, 2 * i + 1, j))
  {
    UnderChildren(i, j);
    XorLaws(t[j], 0, 0);
    XorLaws(0, t[j], 0);
  }

  lemma {:induction false} LeavesXorChildren(t: seq<bv64>, i: nat, start: nat, hi: nat)
    requires 1 <= i < start <= hi <= |t|
    ensures LeavesXor(t, i, start, hi) == Xor(LeavesXor(t, 2 * i, start, hi), LeavesXor(t, 2 * i + 1, start, hi))
    decreases hi - start
  {
    hide Xor, Pick;
    if hi == start {
      XorLaws(0, 0, 0);
    } else {
      LeavesXorChildren(t, i, start, hi - 1);
      PickChildren(t, i, hi - 1);
      XorRegroup(LeavesXor(t, 2 * i, start, hi - 1), LeavesXor(t, 2 * i + 1, start, hi - 1),
                 Pick(t, 2 * i, hi - 1), Pick(t, 2 * i + 1, hi - 1));
    }
  }

  lemma {:induction false} LeavesXorLeaf(t: seq<bv64>, i: nat, start: nat, hi: nat)
    requires start <= i < 2 * start && start <= hi <= |t| == 2 * start
    ensures LeavesXor(t, i, start, hi) == if i < hi then t[i] else 0
    decreases hi - start
  {
    hide Xor;
    if hi > start {
      LeavesXorLeaf(t, i, start, hi - 1);
      UnderLeaf(i, hi - 1, start);
      XorLaws(0, t[hi - 1], 0);
      XorLaws(t[i], 0, 0);
    }
  }

  /** In a built tree every node is the XOR of the leaves below it. */
  lemma {:induction false} NodeIsLeavesXor(t: seq<bv64>, start: nat, i: nat)
    requires Built(t, start) && 1 <= i < |t|
    ensures t[i] == LeavesXor(t, i, start, |t|)
    decreases |t| - i
  {
    hide Xor;
    if i >= start {
      LeavesXorLeaf(t, i, start, |t|);
    } else {
      NodeIsLeavesXor(t, start, 2 * i);
      NodeIsLeavesXor(t, start, 2 * i + 1);
      LeavesXorChildren(t, i, start, |t|);
    }
  }

  lemma {:induction false} SameLeavesSameXor(a: seq<bv64>, b: seq<bv64>, i: nat, start: nat, hi: nat)
    requires start <= hi <= |a| == |b| && a[start..] == b[start..]
    ensures LeavesXor(a, i, start, hi) == LeavesXor(b, i, start, hi)
    decreases hi - start
  {
    hide Xor;
    if hi > start {
      assert a[hi - 1] == a[start..][hi - 1 - start] == b[hi - 1];
      SameLeavesSameXor(a, b, i, start, hi - 1);
    }
  }

  /** A built tree is a function of its leaves. */
  lemma BuiltByLeaves(a: seq<bv64>, b: seq<bv64>, start: nat)
    requires Built(a, start) && Built(b, start) && a[start..] == b[start..]
    ensures forall i | 1 <= i < |a| :: a[i] == b[i]
  {
    forall i | 1 <= i < |a| ensures a[i] == b[i] {
      NodeIsLeavesXor(a, start, i);
      NodeIsLeavesXor(b, start, i);
      SameLeavesSameXor(a, b, i, start, |a|);
    }
  }

  /** The built tree does not depend on the order of insertion. */
  lemma BuiltOrderFree(t: seq<bv64>, xs: seq<Item>, ys: seq<Item>, a: seq<bv64>, b: seq<bv64>, start: nat)
    requires Fit(xs, |t|) && Fit(ys, |t|) && multiset(xs) == multiset(ys)
    requires Built(a, start) && Built(b, start) && |t| == |a| == |b|
    requires a[start..] == XorAllAt(t, xs)[start..] && b[start..] == XorAllAt(t, ys)[start..]
    ensures forall i | 1 <= i < |a| :: a[i] == b[i]
  {
    hide XorAllAt;
    InsertOrderFree(t, xs, ys);
    BuiltByLeaves(a, b, start);
  }

  /** XORing in one more pair: equal values keep a difference, different ones make it. */
  lemma XorOneMore(p: bv64, q: bv64, x: bv64, y: bv64)
    ensures x == y ==> (Xor(p, x) != Xor(q, y) <==> p != q)
    ensures p == q ==> (Xor(p, x) != Xor(q, y) <==> x != y)
  {
    hide Xor;
    XorCancel(p, q, x);
    XorCancel(x, y, p);
    XorLaws(p, x, 0);
    XorLaws(p, y, 0);
  }

  lemma {:induction false} OneLeafXor(a: seq<bv64>, b: seq<bv64>, i: nat, start: nat, hi: nat, x: nat)
    requires start <= hi <= |a| == |b| && start <= x < |a| && a[x] != b[x]
    requires forall j | start <= j < |a| && j != x :: a[j] == b[j]
    ensures LeavesXor(a, i, start, hi) != LeavesXor(b, i, start, hi) <==> x < hi && Under(i, x)
    decreases hi - start
  {
    hide Xor, Under;
    if hi > start {
      OneLeafXor(a, b, i, start, hi - 1, x);
      XorOneMore(LeavesXor(a, i, start, hi - 1), LeavesXor(b, i, start, hi - 1),
                 Pick(a, i, hi - 1), Pick(b, i, hi - 1));
    }
  }

  /** When one leaf differs, exactly the nodes above it differ. */
  lemma OneLeafDiffers(a: seq<bv64>, b: seq<bv64>, start: nat, x: nat, i: nat)
    requires Built(a, start) && Built(b, start) && start <= x < |a| && a[x] != b[x]
    requires forall j | start <= j < |a| && j != x :: a[j] == b[j]
    requires 1 <= i < |a|
    ensures a[i] != b[i] <==> Under(i, x)
  {
    NodeIsLeavesXor(a, start, i);
    NodeIsLeavesXor(b, start, i);
    OneLeafXor(a, b, i, start, |a|, x);
  }

  // -------------------------------------------------------------------------
  // Comparing
  // -------------------------------------------------------------------------

  /** The node and every node above it differ. */
  predicate DiffersToRoot(a: seq<bv64>, b: seq<bv64>, i: nat)
    requires i < |a| == |b|
    decreases i
  {
    i >= 1 && a[i] != b[i] && (i == 1 || DiffersToRoot(a, b, i / 2))
  }

  /** What the comparison queues for a node: its children, unless it agrees or is a leaf. */
  function Expand(a: seq<bv64>, b: seq<bv64>, start: nat, i: nat): seq<nat>
    requires i < |a| == |b| == 2 * start
  {
    if a[i] == b[i] || i >= start then [] else [2 * i, 2 * i + 1]
  }

  predicate Indices(q: seq<nat>, n: nat) { forall k | 0 <= k < |q| :: 1 <= q[k] < n }

  function ExpandAll(a: seq<bv64>, b: seq<bv64>, start: nat, q: seq<nat>): (r: seq<nat>)
    requires |a| == |b| == 2 * start && Indices(q, |a|)
    ensures Indices(r, |a|)
  {
    if q == [] then []
    else ExpandAll(a, b, start, q[..|q| - 1]) + Expand(a, b, start, q[|q| - 1])
  }

  /** The k-th queue of the breadth-first comparison. */
  function Level(a: seq<bv64>, b: seq<bv64>, start: nat, k: nat): (r: seq<nat>)
    requires |a| == |b| == 2 * start && start >= 1
    ensures Indices(r, |a|)
  {
    if k == 0 then [1] else ExpandAll(a, b, start, Level(a, b, start, k - 1))
  }

  lemma {:induction false} ExpandAllHas(a: seq<bv64>, b: seq<bv64>, start: nat, q: seq<nat>, x: nat)
    requires |a| == |b| == 2 * start && Indices(q, |a|)
    ensures x in ExpandAll(a, b, start, q) <==> x / 2 in q && a[x / 2] != b[x / 2] && x / 2 < start
    decreases |q|
  {
    if q != [] {
      var init, i := q[..|q| - 1], q[|q| - 1];
      ExpandAllHas(a, b, start, init, x);
      assert x in Expand(a, b, start, i) <==> x / 2 == i && a[i] != b[i] && i < start;
      assert x / 2 in q <==> x / 2 in init || x / 2 == i;
    }
  }

  lemma {:induction false} ExpandAllAscends(a: seq<bv64>, b: seq<bv64>, start: nat, q: seq<nat>)
    requires |a| == |b| == 2 * start && Indices(q, |a|) && Ascending(q, NatLess)
    ensures Ascending(ExpandAll(a, b, start, q), NatLess)
    decreases |q|
  {
    if q != [] {
      var init, i := q[..|q| - 1], q[|q| - 1];
      ExpandAllAscends(a, b, start, init);
      var r := ExpandAll(a, b, start, init);
      forall k | 0 <= k < |r| ensures r[k] < 2 * i {
        ExpandAllHas(a, b, start, init, r[k]);
      }
    }
  }

  /** The k-th queue holds exactly the nodes of the k-th level whose every proper ancestor differs. */
  lemma {:induction false} LevelHas(a: seq<bv64>, b: seq<bv64>, d: nat, k: nat, x: nat)
    requires |a| == |b| == 2 * Pow2(d) && k <= d
    ensures x in Level(a, b, Pow2(d), k) <==>
              Pow2(k) <= x < 2 * Pow2(k) && (x == 1 || (x / 2 < |a| && DiffersToRoot(a, b, x / 2)))
    decreases k
  {
    hide ExpandAll;
    if k > 0 {
      LevelHas(a, b, d, k - 1, x / 2);
      Pow2Monotone(k, d);
      ExpandAllHas(a, b, Pow2(d), Level(a, b, Pow2(d), k - 1), x);
    }
  }

  lemma {:induction false} LevelAscends(a: seq<bv64>, b: seq<bv64>, start: nat, k: nat)
    requires |a| == |b| == 2 * start && start >= 1
    ensures Ascending(Level(a, b, start, k), NatLess)
    decreases k
  {
    hide ExpandAll;
    if k > 0 {
      LevelAscends(a, b, start, k - 1);
      ExpandAllAscends(a, b, start, Level(a, b, start, k - 1));
    }
  }

  datatype DiffRange = DiffRange(leaf: nat, first: nat, last: nat)

  function RangeOf(d: nat, leaf: nat): DiffRange
    requires Depth(d)
  {
    DiffRange(leaf, leaf * Span(d), leaf * Span(d) + Span(d) - 1)
  }

  /** A reported range is exactly the key hashes that fall in the leaf, and lies within 64 bits. */
  lemma RangeIsLeaf(d: nat, leaf: nat, key: nat)
    requires Depth(d) && leaf < Pow2(d) && key < TWO64
    ensures RangeOf(d, leaf).last < TWO64
    ensures LeafOf(d, key) == leaf <==> RangeOf(d, leaf).first <= key <= RangeOf(d, leaf).last
  {
    SpanTimes(d);
    MulMonotone(leaf + 1, Pow2(d), Span(d));
    assert leaf * Span(d) + Span(d) == (leaf + 1) * Span(d);
    Quotient(key, Span(d), leaf);
  }

  lemma Quotient(x: nat, k: nat, q: nat)
    requires k > 0
    ensures x / k == q <==> q * k <= x < q * k + k
  {
    var p := x / k;
    assert x == p * k + x % k;
    if p < q { MulMonotone(p + 1, q, k); assert (p + 1) * k == p * k + k; }
    if p > q { MulMonotone(q + 1, p, k); assert (q + 1) * k == q * k + k; }
  }

  function Found(a: seq<bv64>, b: seq<bv64>, d: nat, i: nat): seq<DiffRange>
    requires Depth(d) && i < |a| == |b| == 2 * Pow2(d)
  {
    if a[i] != b[i] && i >= Pow2(d) then [RangeOf(d, i - Pow2(d))] else []
  }

  function FoundAll(a: seq<bv64>, b: seq<bv64>, d: nat, q: seq<nat>): seq<DiffRange>
    requires Depth(d) && |a| == |b| == 2 * Pow2(d) && Indices(q, |a|)
  {
    if q == [] then [] else FoundAll(a, b, d, q[..|q| - 1]) + Found(a, b, d, q[|q| - 1])
  }

  lemma {:induction false} FoundAllHas(a: seq<bv64>, b: seq<bv64>, d: nat, q: seq<nat>, r: DiffRange)
    requires Depth(d) && |a| == |b| == 2 * Pow2(d) && Indices(q, |a|)
    ensures r in FoundAll(a, b, d, q) <==>
              Pow2(d) + r.leaf in q && a[Pow2(d) + r.leaf] != b[Pow2(d) + r.leaf] && r == RangeOf(d, r.leaf)
    decreases |q|
  {
    hide Pow2, RangeOf;
    if q != [] {
      var init, i := q[..|q| - 1], q[|q| - 1];
      var x := Pow2(d) + r.leaf;
      FoundAllHas(a, b, d, init, r);
      assert x in q <==> x in init || x == i;
      RangeLeaf(d, r.leaf);
      if i >= Pow2(d) { RangeLeaf(d, i - Pow2(d)); }
      assert r in Found(a, b, d, i) <==> x == i && a[x] != b[x] && r == RangeOf(d, r.leaf);
    }
  }

  lemma RangeLeaf(d: nat, leaf: nat)
    requires Depth(d)
    ensures RangeOf(d, leaf).leaf == leaf
  {
  }

  predicate LeafLess(x: DiffRange, y: DiffRange) { x.leaf < y.leaf }

  lemma {:induction false} FoundAllAscends(a: seq<bv64>, b: seq<bv64>, d: nat, q: seq<nat>)
    requires Depth(d) && |a| == |b| == 2 * Pow2(d) && Indices(q, |a|) && Ascending(q, NatLess)
    ensures Ascending(FoundAll(a, b, d, q), LeafLess)
    decreases |q|
  {
    hide Pow2, RangeOf;
    if q != [] {
      var init, i := q[..|q| - 1], q[|q| - 1];
      FoundAllAscends(a, b, d, init);
      var rs := FoundAll(a, b, d, init);
      if i >= Pow2(d) {
        RangeLeaf(d, i - Pow2(d));
        forall k | 0 <= k < |rs| ensures rs[k].leaf < i - Pow2(d) {
          FoundAllHas(a, b, d, init, rs[k]);
          var m :| 0 <= m < |init| && init[m] == Pow2(d) + rs[k].leaf;
          assert q[m] < q[|q| - 1];
        }
      }
    }
  }

  /** What comparing two trees of depth `d` must report. */
  ghost predicate Reports(a: seq<bv64>, b: seq<bv64>, d: nat, out: seq<DiffRange>)
    requires Depth(d) && |a| == |b| == 2 * Pow2(d)
  {
    && Ascending(out, LeafLess)
    && (forall r | r in out :: r.leaf < Pow2(d) && r == RangeOf(d, r.leaf))
    && (forall leaf: nat | leaf < Pow2(d) :: RangeOf(d, leaf) in out <==> DiffersToRoot(a, b, Pow2(d) + leaf))
  }

  lemma LastLevelReports(a: seq<bv64>, b: seq<bv64>, d: nat)
    requires Depth(d) && |a| == |b| == 2 * Pow2(d)
    ensures Reports(a, b, d, FoundAll(a, b, d, Level(a, b, Pow2(d), d)))
  {
    hide Pow2, RangeOf, Level, FoundAll;
    var q := Level(a, b, Pow2(d), d);
    var out := FoundAll(a, b, d, q);
    LevelAscends(a, b, Pow2(d), d);
    FoundAllAscends(a, b, d, q);
    forall r | r in out ensures r.leaf < Pow2(d) && r == RangeOf(d, r.leaf) {
      FoundAllHas(a, b, d, q, r);
      LevelHas(a, b, d, d, Pow2(d) + r.leaf);
    }
    Pow2Monotone(1, d);
    Pow2Of1();
    forall leaf: nat | leaf < Pow2(d) ensures RangeOf(d, leaf) in out <==> DiffersToRoot(a, b, Pow2(d) + leaf) {
      RangeLeaf(d, leaf);
      FoundAllHas(a, b, d, q, RangeOf(d, leaf));
      LevelHas(a, b, d, d, Pow2(d) + leaf);
    }
  }

  /** Above the leaves nothing is reported, and below them nothing is queued. */
  lemma {:induction false} QuietLevel(a: seq<bv64>, b: seq<bv64>, d: nat, q: seq<nat>)
    requires Depth(d) && |a| == |b| == 2 * Pow2(d) && Indices(q, |a|)
    ensures (forall k | 0 <= k < |q| :: q[k] < Pow2(d)) ==> FoundAll(a, b, d, q) == []
    ensures (forall k | 0 <= k < |q| :: q[k] >= Pow2(d)) ==> ExpandAll(a, b, Pow2(d), q) == []
    decreases |q|
  {
    hide Pow2, RangeOf;
    if q != [] { QuietLevel(a, b, d, q[..|q| - 1]); }
  }

  lemma LevelQuiet(a: seq<bv64>, b: seq<bv64>, d: nat, k: nat)
    requires Depth(d) && |a| == |b| == 2 * Pow2(d) && k <= d
    ensures k < d ==> FoundAll(a, b, d, Level(a, b, Pow2(d), k)) == []
    ensures k == d ==> Level(a, b, Pow2(d), d + 1) == []
  {
    hide RangeOf, FoundAll, ExpandAll, DiffersToRoot;
    var q := Level(a, b, Pow2(d), k);
    forall j | 0 <= j < |q| ensures Pow2(k) <= q[j] < 2 * Pow2(k) { LevelHas(a, b, d, k, q[j]); }
    if k < d { Pow2Monotone(k + 1, d); }
    QuietLevel(a, b, d, q);
  }

  lemma {:induction false} LevelsEnd(a: seq<bv64>, b: seq<bv64>, start: nat, j: nat, k: nat)
    requires |a| == |b| == 2 * start && start >= 1 && j <= k && Level(a, b, start, j) == []
    ensures Level(a, b, start, k) == []
    decreases k
  {
    if k > j { LevelsEnd(a, b, start, j, k - 1); }
  }

  // -------------------------------------------------------------------------
  // What the comparison finds and misses
  // -------------------------------------------------------------------------

  lemma {:induction false} AncestorsDiffer(a: seq<bv64>, b: seq<bv64>, start: nat, x: nat, i: nat)
    requires Built(a, start) && Built(b, start) && start <= x < |a| && a[x] != b[x]
    requires forall j | start <= j < |a| && j != x :: a[j] == b[j]
    requires 1 <= i < |a|
    ensures DiffersToRoot(a, b, i) <==> Under(i, x)
    decreases i
  {
    hide Built;
    OneLeafDiffers(a, b, start, x, i);
    if i > 1 {
      AncestorsDiffer(a, b, start, x, i / 2);
      if Under(i, x) { UnderParent(i, x); }
    }
  }

  lemma {:induction false} UnderParent(i: nat, j: nat)
    requires i > 1 && Under(i, j)
    ensures Under(i / 2, j)
    decreases j
  {
    if j > i { UnderParent(i, j / 2); }
  }

  /** When exactly one leaf differs, exactly that leaf is reported. */
  lemma OneLeafFound(a: seq<bv64>, b: seq<bv64>, d: nat, out: seq<DiffRange>, leaf: nat)
    requires Depth(d) && Built(a, Pow2(d)) && Built(b, Pow2(d)) && Reports(a, b, d, out)
    requires leaf < Pow2(d) && a[Pow2(d) + leaf] != b[Pow2(d) + leaf]
    requires forall j | Pow2(d) <= j < |a| && j != Pow2(d) + leaf :: a[j] == b[j]
    ensures out == [RangeOf(d, leaf)]
  {
    hide Pow2, RangeOf, DiffersToRoot;
    var x := Pow2(d) + leaf;
    AncestorsDiffer(a, b, Pow2(d), x, x);
    forall r | r in out ensures r == RangeOf(d, leaf) {
      var y := Pow2(d) + r.leaf;
      AncestorsDiffer(a, b, Pow2(d), x, y);
      UnderLeaf(y, x, Pow2(d));
    }
    OnlyOne(out, RangeOf(d, leaf));
  }

  lemma OnlyOne(out: seq<DiffRange>, r: DiffRange)
    requires Ascending(out, LeafLess) && r in out && forall x | x in out :: x == r
    ensures out == [r]
  {
    assert Elements(out) == {r};
    forall i, j | 0 <= i < j < |out| ensures out[i] != out[j] { assert LeafLess(out[i], out[j]); }
    DistinctSize(out);
  }

  /** Equal trees have nothing reported; so do trees whose differences cancel at the root. */
  lemma EqualRootsHideAll(a: seq<bv64>, b: seq<bv64>, d: nat, out: seq<DiffRange>)
    requires Depth(d) && |a| == |b| == 2 * Pow2(d) && Reports(a, b, d, out) && a[1] == b[1]
    ensures out == []
  {
    hide Pow2, RangeOf;
    if out != [] {
      var r := out[0];
      assert r in out;
      RootDiffers(a, b, Pow2(d) + r.leaf);
    }
  }

  lemma {:induction false} RootDiffers(a: seq<bv64>, b: seq<bv64>, i: nat)
    requires |a| == |b| && 1 <= i < |a| && DiffersToRoot(a, b, i)
    ensures a[1] != b[1]
    decreases i
  {
    if i > 1 { RootDiffers(a, b, i / 2); }
  }

  /** Two leaves differing by the same amount cancel: at depth 1 the comparison reports neither. */
  lemma DifferencesCancel(v: bv64)
    requires v != 0
    ensures
      var a, b := [0, 0, 0, 0], [0, 0, v, v];
      && Built(a, Pow2(1)) && Built(b, Pow2(1)) && a[2] != b[2] && a[3] != b[3]
      && forall out | Reports(a, b, 1, out) :: out == []
  {
    hide Xor;
    var a: seq<bv64>, b: seq<bv64> := [0, 0, 0, 0], [0, 0, v, v];
    Pow2Of1();
    XorZero(0);
    XorZero(v);
    assert Built(a, Pow2(1)) && Built(b, Pow2(1));
    forall out | Reports(a, b, 1, out) ensures out == [] { EqualRootsHideAll(a, b, 1, out); }
  }

  // -------------------------------------------------------------------------
  // The tree
  // -------------------------------------------------------------------------

  class MerkleTree {
    const depth: nat
    const leafStart: nat
    const nodes: array<bv64>

    predicate Valid()
      reads this
    {
      Depth(depth) && leafStart == Pow2(depth) && nodes.Length == 2 * leafStart
    }

    constructor (d: nat)
      requires Depth(d)
      ensures Valid() && depth == d && fresh(nodes) && forall i | 0 <= i < nodes.Length :: nodes[i] == 0
    {
      depth, leafStart := d, Pow2(d);
      nodes := new bv64[2 * Pow2(d)](_ => 0);
    }

    method Insert(key: nat, value: bv64)
      requires Valid() && key < TWO64
      modifies nodes
      ensures LeafOf(depth, key) < Pow2(depth)
      ensures nodes[..] == XorAt(old(nodes[..]), Item(leafStart + LeafOf(depth, key), value))
    {
      hide Xor, LeafOf, Pow2;
      LeafBelow(depth, key);
      var slot := leafStart + LeafOf(depth, key);
      nodes[slot] := Xor(nodes[slot], value);
    }

    method Build()
      requires Valid()
      modifies nodes
      ensures Built(nodes[..], leafStart)
      ensures nodes[leafStart..] == old(nodes[leafStart..]) && nodes[0] == old(nodes[0])
    {
      hide Xor, Pow2;
      var i := leafStart - 1;
      while i >= 1
        invariant 0 <= i < leafStart
        invariant nodes[leafStart..] == old(nodes[leafStart..]) && nodes[0] == old(nodes[0])
        invariant forall k | i < k < leafStart :: nodes[k] == Xor(nodes[2 * k], nodes[2 * k + 1])
      {
        nodes[i] := Xor(nodes[2 * i], nodes[2 * i + 1]);
        i := i - 1;
      }
    }

    method Clear()
      requires Valid()
      modifies nodes
      ensures forall i | 0 <= i < nodes.Length :: nodes[i] == 0
    {
      for i := 0 to nodes.Length
        invariant forall k | 0 <= k < i :: nodes[k] == 0
      {
        nodes[i] := 0;
      }
    }

    /** One level of the comparison: what it reports and what it queues next. */
    static method Visit(a: MerkleTree, b: MerkleTree, queue: seq<nat>) returns (next: seq<nat>, found: seq<DiffRange>)
      requires a.Valid() && b.Valid() && a.depth == b.depth && Indices(queue, a.nodes.Length)
      ensures next == ExpandAll(a.nodes[..], b.nodes[..], a.leafStart, queue)
      ensures found == FoundAll(a.nodes[..], b.nodes[..], a.depth, queue)
    {
      hide Pow2, RangeOf;
      next, found := [], [];
      for i := 0 to |queue|
        invariant next == ExpandAll(a.nodes[..], b.nodes[..], a.leafStart, queue[..i])
        invariant found == FoundAll(a.nodes[..], b.nodes[..], a.depth, queue[..i])
      {
        assert queue[..i + 1][..i] == queue[..i];
        var idx := queue[i];
        if a.nodes[idx] == b.nodes[idx] { continue; }
        if idx >= a.leafStart {
          found := found + [RangeOf(a.depth, idx - a.leafStart)];
        } else {
          next := next + [2 * idx];
          next := next + [2 * idx + 1];
        }
      }
      assert queue[..|queue|] == queue;
    }

    /**
     `diff`: every leaf whose node and every ancestor differ, once each and in
     order; nothing for trees of different depth.
     */
    static method Diff(a: MerkleTree, b: MerkleTree) returns (out: seq<DiffRange>)
      requires a.Valid() && b.Valid()
      ensures a.depth != b.depth ==> out == []
      ensures a.depth == b.depth ==> Reports(a.nodes[..], b.nodes[..], a.depth, out)
    {
      hide Level, ExpandAll, FoundAll, Reports, Pow2;
      if a.depth != b.depth { return []; }
      ghost var s, t, d := a.nodes[..], b.nodes[..], a.depth;
      LastLevelReports(s, t, d);
      FirstLevels(s, t, d);
      if a.nodes[1] == b.nodes[1] {
        LevelsEnd(s, t, Pow2(d), 1, d);
        NothingFound(s, t, d);
        return [];
      }
      out := [];
      var queue := [1];
      ghost var k := 0;
      while queue != []
        invariant k <= d + 1 && queue == Level(s, t, Pow2(d), k)
        invariant out == if k <= d then [] else FoundAll(s, t, d, Level(s, t, Pow2(d), d))
        decreases d + 1 - k
      {
        if k == d + 1 { LevelQuiet(s, t, d, d); assert false; }
        LevelQuiet(s, t, d, k);
        LevelNext(s, t, Pow2(d), k);
        var next, found := Visit(a, b, queue);
        out := out + found;
        queue := next;
        k := k + 1;
      }
      if k <= d {
        LevelsEnd(s, t, Pow2(d), k, d);
        NothingFound(s, t, d);
      }
    }
  }

  lemma FirstLevels(a: seq<bv64>, b: seq<bv64>, d: nat)
    requires Depth(d) && |a| == |b| == 2 * Pow2(d)
    ensures Pow2(d) >= 2 && Level(a, b, Pow2(d), 0) == [1]
    ensures a[1] == b[1] ==> Level(a, b, Pow2(d), 1) == []
  {
    Pow2Monotone(1, d);
    assert Level(a, b, Pow2(d), 1) == ExpandAll(a, b, Pow2(d), [1]);
    assert [1][..0] == [];
    assert ExpandAll(a, b, Pow2(d), []) == [];
  }

  lemma LevelNext(a: seq<bv64>, b: seq<bv64>, start: nat, k: nat)
    requires |a| == |b| == 2 * start && start >= 1
    ensures Level(a, b, start, k + 1) == ExpandAll(a, b, start, Level(a, b, start, k))
  {
  }

  lemma NothingFound(a: seq<bv64>, b: seq<bv64>, d: nat)
    requires Depth(d) && |a| == |b| == 2 * Pow2(d)
    ensures FoundAll(a, b, d, []) == []
  {
  }
}
