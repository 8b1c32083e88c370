/**
 The text primitives every wire and storage format is built from: splitting on a
 delimiter, decimal printing, and the standard library's number parsers.
 */
module Text {

  datatype Option<+T> = None | Some(value: T)

  /** `find(c)`: the first index holding `c`, or the length when there is none. */
  function IndexOf(s: string, c: char): (i: nat)
    ensures i <= |s| && (forall j | 0 <= j < i :: s[j] != c) && (i < |s| ==> s[i] == c)
  {
    if s == [] || s[0] == c then 0 else 1 + IndexOf(s[1..], c)
  }

  lemma IndexOfIs(s: string, c: char, i: nat)
    requires i < |s| && s[i] == c && forall j | 0 <= j < i :: s[j] != c
    ensures IndexOf(s, c) == i
  {
  }

  lemma IndexOfNone(s: string, c: char)
    requires c !in s
    ensures IndexOf(s, c) == |s|
  {
  }

  /** Cutting at the first delimiter recovers both sides. */
  lemma CutAt(a: string, c: char, b: string)
    requires c !in a
    ensures
      var s := a + [c] + b;
      IndexOf(s, c) == |a| && s[..|a|] == a && s[|a| + 1..] == b
  {
    var s := a + [c] + b;
    assert forall k | 0 <= k < |a| :: s[k] == a[k] && a[k] in a;
    IndexOfIs(s, c, |a|);
  }

  /** The fields of `s` between delimiters, empty ones kept; always at least one. */
  function Split(s: string, c: char): (f: seq<string>)
    ensures |f| > 0
    decreases |s|
  {
    var i := IndexOf(s, c);
    if i == |s| then [s] else [s[..i]] + Split(s[i + 1..], c)
  }

  function Join(f: seq<string>, c: char): string {
    if f == [] then [] else if |f| == 1 then f[0] else f[0] + [c] + Join(f[1..], c)
  }

  /** Splitting undoes joining, for delimiter-free fields. */
  lemma {:induction false} SplitJoin(f: seq<string>, c: char)
    requires |f| > 0 && forall x | x in f :: c !in x
    ensures Split(Join(f, c), c) == f
    decreases |f|
  {
    var s := Join(f, c);
    if |f| == 1 {
      IndexOfNone(s, c);
    } else {
      assert s[..|f[0]|] == f[0] && s[|f[0]|] == c;
      assert forall j | 0 <= j < |f[0]| :: s[j] == f[0][j] && f[0][j] in f[0];
      IndexOfIs(s, c, |f[0]|);
      assert s[|f[0]| + 1..] == Join(f[1..], c);
      SplitJoin(f[1..], c);
    }
  }

  lemma {:induction false} JoinFree(f: seq<string>, c: char, d: char)
    requires c != d && forall x | x in f :: d !in x
    ensures d !in Join(f, c)
    decreases |f|
  {
    if |f| > 1 { JoinFree(f[1..], c, d); }
  }

  lemma {:induction false} SplitFrom(s: string, start: nat, c: char)
    requires start <= |s|
    ensures
      var p := start + IndexOf(s[start..], c);
      Split(s[start..], c) == if p == |s| then [s[start..]] else [s[start..p]] + Split(s[p + 1..], c)
  {
    var t := s[start..];
    var k := IndexOf(t, c);
    if k < |t| {
      assert t[..k] == s[start..start + k];
      assert t[k + 1..] == s[start + k + 1..];
    }
  }

  /** The splitting loop shared by the gossip, node and replica-client parsers. */
  method SplitAll(s: string, delim: char) returns (out: seq<string>)
    ensures out == Split(s, delim)
  {
    out := [];
    var start := 0;
    ghost var all := Split(s, delim);
    assert s[0..] == s;
    while true
      invariant 0 <= start <= |s|
      invariant |out| < |all| && out == all[..|out|] && all[|out|..] == Split(s[start..], delim)
      decreases |s| - start
    {
      var p := start + IndexOf(s[start..], delim);
      SplitFrom(s, start, delim);
      ghost var k := |out|;
      if p == |s| {
        assert all[k..] == [s[start..]];
        out := out + [s[start..]];
        return;
      }
      assert all[k..][0] == s[start..p] && all[k..][1..] == all[k + 1..];
      out := out + [s[start..p]];
      start := p + 1;
    }
  }

  lemma {:induction false} JoinAppend(f: seq<string>, x: string, c: char)
    requires f != []
    ensures Join(f + [x], c) == Join(f, c) + [c] + x
    decreases |f|
  {
    if |f| > 1 {
      assert (f + [x])[1..] == f[1..] + [x];
      JoinAppend(f[1..], x, c);
      calc {
        Join(f + [x], c);
        f[0] + [c] + (Join(f[1..], c) + [c] + x);
        (f[0] + [c] + Join(f[1..], c)) + [c] + x;
      }
    } else {
      assert (f + [x])[1..] == [x];
    }
  }

  /** Appending one token with its separator, as the printing loop does. */
  lemma JoinNext(ts: seq<string>, i: nat, c: char)
    requires i < |ts|
    ensures Join(ts[..i + 1], c) == Join(ts[..i], c) + (if i == 0 then "" else [c]) + ts[i]
  {
    assert ts[..i + 1] == ts[..i] + [ts[i]];
    if i > 0 { JoinAppend(ts[..i], ts[i], c); }
  }

  /** The printing loop: a separator before every token but the first. */
  method PrintJoined(ts: seq<string>, sep: char) returns (out: string)
    ensures out == Join(ts, sep)
  {
    out := "";
    var first := true;
    var i := 0;
    while i < |ts|
      invariant 0 <= i <= |ts| && (first <==> i == 0)
      invariant out == Join(ts[..i], sep)
    {
      JoinNext(ts, i, sep);
      if !first { out := out + [sep]; }
      out := out + ts[i];
      first := false;
      i := i + 1;
    }
    assert ts[..i] == ts;
  }

  // -------------------------------------------------------------------------
  // Decimal numbers
  // -------------------------------------------------------------------------

  predicate IsDigit(c: char) { '0' <= c <= '9' }

  function Digit(d: nat): (c: char)
    requires d < 10
    ensures IsDigit(c) && DigitValue(c) == d
  {
    '0' + d as char
  }

  function DigitValue(c: char): (d: nat)
    requires IsDigit(c)
    ensures d < 10
  {
    (c - '0') as nat
  }

  /** `operator<<` on an unsigned number. */
  function Dec(n: nat): (s: string)
    ensures |s| > 0 && forall c | c in s :: IsDigit(c)
  {
    if n < 10 then [Digit(n)] else Dec(n / 10) + [Digit(n % 10)]
  }

  /** The number of leading digits of `s`. */
  function DigitRun(s: string): (k: nat)
    ensures k <= |s| && forall i | 0 <= i < k :: IsDigit(s[i])
    ensures k < |s| ==> !IsDigit(s[k])
  {
    if s != [] && IsDigit(s[0]) then 1 + DigitRun(s[1..]) else 0
  }

  /** The value of a string of digits. */
  function DigitsValue(s: string): nat
    requires forall c | c in s :: IsDigit(c)
  {
    if s == [] then 0
    else 10 * DigitsValue(s[..|s| - 1]) + DigitValue(s[|s| - 1])
  }

  lemma {:induction false} DecValue(n: nat)
    ensures DigitsValue(Dec(n)) == n
  {
    if n >= 10 {
      DecValue(n / 10);
      assert Dec(n)[..|Dec(n)| - 1] == Dec(n / 10);
    } else {
      assert Dec(n)[..0] == [];
    }
  }

  lemma DecInjective(m: nat, n: nat)
    requires Dec(m) == Dec(n)
    ensures m == n
  {
    DecValue(m);
    DecValue(n);
  }

  predicate IsSpace(c: char) { c == ' ' || '\t' <= c <= '\r' }

  function SkipSpaces(s: string): string {
    if s != [] && IsSpace(s[0]) then SkipSpaces(s[1..]) else s
  }

  /** Sign and magnitude of the leading number, as strtol and strtoull read it; None when there are no digits. */
  function ReadNumber(s: string): Option<(bool, nat)> {
    var t := SkipSpaces(s);
    var negative := t != [] && t[0] == '-';
    var u := if t != [] && (t[0] == '-' || t[0] == '+') then t[1..] else t;
    var k := DigitRun(u);
    if k == 0 then None else Some((negative, DigitsValue(u[..k])))
  }

  const TWO64: nat := 0x1_0000_0000_0000_0000

  /** `std::stoull`: None stands for the exception. */
  function Stoull(s: string): Option<nat> {
    match ReadNumber(s)
    case None => None
    case Some((negative, m)) =>
      if m >= TWO64 then None
      else Some(if negative && m > 0 then TWO64 - m else m)
  }

  /** `std::stoi`: None stands for the exception. */
  function Stoi(s: string): Option<int> {
    match ReadNumber(s)
    case None => None
    case Some((negative, m)) =>
      var i: int := m;
      var v := if negative then -i else i;
      if -0x8000_0000 <= v < 0x8000_0000 then Some(v) else None
  }

  lemma ReadDec(n: nat)
    ensures ReadNumber(Dec(n)) == Some((false, n))
  {
    var s := Dec(n);
    assert IsDigit(s[0]);
    assert SkipSpaces(s) == s;
    assert DigitRun(s) == |s| by {
      assert forall i | 0 <= i < |s| :: s[i] in s;
    }
    assert s[..|s|] == s;
    DecValue(n);
  }

  lemma StoullDec(n: nat)
    requires n < TWO64
    ensures Stoull(Dec(n)) == Some(n)
  {
    ReadDec(n);
  }

  lemma StoiDec(n: nat)
    requires n < 0x8000_0000
    ensures Stoi(Dec(n)) == Some(n)
  {
    ReadDec(n);
  }
}
