/**
 The two orders the system sorts by, and the enumeration of a finite set in
 ascending order.  A `std::map` or `TreeMap` visits its keys in exactly this
 order, so `Sorted` is how the other modules model iterating over one.
 */
module Orders {

  ghost predicate StrictTotal<T(!new)>(less: (T, T) -> bool) {
    && (forall x :: !less(x, x))
    && (forall x, y, z :: less(x, y) && less(y, z) ==> less(x, z))
    && (forall x, y :: less(x, y) || x == y || less(y, x))
  }

  ghost predicate Ascending<T>(s: seq<T>, less: (T, T) -> bool) {
    forall i, j | 0 <= i < j < |s| :: less(s[i], s[j])
  }

  ghost function Elements<T>(s: seq<T>): set<T> {
    set x | x in s
  }

  lemma ElementsEmpty<T>(s: seq<T>)
    ensures Elements(s) == {} <==> s == []
  {
    if s != [] { assert s[0] in Elements(s); }
  }

  lemma ElementsSnoc<T>(s: seq<T>, k: nat)
    requires k < |s|
    ensures Elements(s[..k + 1]) == Elements(s[..k]) + {s[k]}
  {
    assert s[..k + 1] == s[..k] + [s[k]];
  }

  predicate IsLeast<T(==)>(x: T, s: set<T>, less: (T, T) -> bool) {
    x in s && forall y | y in s :: y == x || less(x, y)
  }

  lemma {:induction false} LeastExists<T(!new)>(s: set<T>, less: (T, T) -> bool)
    requires StrictTotal(less) && s != {}
    ensures exists x :: IsLeast(x, s, less)
  {
    var a :| a in s;
    if s == {a} {
      assert IsLeast(a, s, less);
    } else {
      LeastExists(s - {a}, less);
      var b :| IsLeast(b, s - {a}, less);
      var x := if less(a, b) then a else b;
      forall y | y in s ensures y == x || less(x, y) {
        if y != a { assert y in s - {a}; }
      }
      assert IsLeast(x, s, less);
    }
  }

  function Least<T(==, !new)>(s: set<T>, less: (T, T) -> bool): (x: T)
    requires StrictTotal(less) && s != {}
    ensures IsLeast(x, s, less)
  {
    LeastExists(s, less);
    var x :| IsLeast(x, s, less) && x in s;
    x
  }

  /** The elements of `s`, each once, in ascending order. */
  function Sorted<T(==, !new)>(s: set<T>, less: (T, T) -> bool): (r: seq<T>)
    requires StrictTotal(less)
    ensures Ascending(r, less) && Elements(r) == s && |r| == |s|
  {
    if s == {} then []
    else
      var x := Least(s, less);
      var rest := Sorted(s - {x}, less);
      PrependLeast(x, rest, s, less);
      [x] + rest
  }

  lemma PrependLeast<T>(x: T, rest: seq<T>, s: set<T>, less: (T, T) -> bool)
    requires IsLeast(x, s, less) && Ascending(rest, less) && Elements(rest) == s - {x}
    ensures Ascending([x] + rest, less) && Elements([x] + rest) == s
  {
    forall i | 0 <= i < |rest| ensures less(x, rest[i]) {
      assert rest[i] in Elements(rest);
    }
    assert Elements([x] + rest) == {x} + Elements(rest);
  }

  /** An ascending list is determined by its elements. */
  lemma {:induction false} AscendingUnique<T(!new)>(a: seq<T>, b: seq<T>, less: (T, T) -> bool)
    requires StrictTotal(less)
    requires Ascending(a, less) && Ascending(b, less) && Elements(a) == Elements(b)
    ensures a == b
  {
    ElementsEmpty(a);
    ElementsEmpty(b);
    if a != [] {
      assert a[0] in Elements(b) && b != [];
      assert b[0] in Elements(a);
      assert a[0] == b[0];
      forall x ensures x in Elements(a[1..]) <==> x in Elements(b[1..]) {
        assert x in Elements(a) <==> x == a[0] || x in a[1..];
        assert x in Elements(b) <==> x == b[0] || x in b[1..];
      }
      AscendingUnique(a[1..], b[1..], less);
      assert a == [a[0]] + a[1..] && b == [b[0]] + b[1..];
    }
  }

  lemma AscendingDistinct<T(!new)>(a: seq<T>, less: (T, T) -> bool)
    requires StrictTotal(less) && Ascending(a, less)
    ensures forall i, j | 0 <= i < j < |a| :: a[i] != a[j]
  {
  }

  /** `std::string`'s operator<: lexicographic, a proper prefix first. */
  predicate StrLess(a: string, b: string) {
    b != [] && (a == [] || a[0] < b[0] || (a[0] == b[0] && StrLess(a[1..], b[1..])))
  }

  lemma {:induction false} StrLessTrans(a: string, b: string, c: string)
    requires StrLess(a, b) && StrLess(b, c)
    ensures StrLess(a, c)
  {
    if a != [] && a[0] == b[0] == c[0] {
      StrLessTrans(a[1..], b[1..], c[1..]);
    }
  }

  lemma {:induction false} StrLessCases(a: string, b: string)
    ensures StrLess(a, b) || a == b || StrLess(b, a)
    ensures !StrLess(a, a)
  {
    if a != [] && b != [] && a[0] == b[0] {
      StrLessCases(a[1..], b[1..]);
      assert a == [a[0]] + a[1..] && b == [b[0]] + b[1..];
    }
    if a != [] { StrLessCases(a[1..], a[1..]); }
  }

  lemma StrLessTotal()
    ensures StrictTotal(StrLess)
  {
    forall x: string, y: string, z: string | StrLess(x, y) && StrLess(y, z) ensures StrLess(x, z) {
      StrLessTrans(x, y, z);
    }
    forall x: string, y: string ensures !StrLess(x, x) && (StrLess(x, y) || x == y || StrLess(y, x)) {
      StrLessCases(x, y);
    }
  }

  predicate NatLess(a: nat, b: nat) { a < b }

  lemma NatLessTotal()
    ensures StrictTotal(NatLess)
  {
  }

  /** Cardinality facts about finite sets. */
  lemma {:induction false} SubsetSize<T>(a: set<T>, b: set<T>)
    requires a <= b
    ensures |a| <= |b|
    ensures a != b ==> |a| < |b|
  {
    if a != {} {
      var x :| x in a;
      SubsetSize(a - {x}, b - {x});
    }
  }

  lemma {:induction false} DistinctSize<T>(s: seq<T>)
    requires forall i, j | 0 <= i < j < |s| :: s[i] != s[j]
    ensures |Elements(s)| == |s|
  {
    if s != [] {
      DistinctSize(s[1..]);
      assert Elements(s) == {s[0]} + Elements(s[1..]);
    }
  }
}
