/**
 Versioned values and their storage form: base64 data, the clock token, and the
 tombstone marker, separated by '|'.
 */
module Versions {
  import opened Orders
  import opened Text
  import opened Clocks
  import opened Base64

  /** A value, the clock that versions it, and whether it is a tombstone. */
  datatype Version = Version(data: seq<byte>, clock: Clock, deleted: bool)

  // -------------------------------------------------------------------------
  // The clock token
  // -------------------------------------------------------------------------

  function Token(id: string, e: Entry): string {
    Join([id, Dec(e.counter), Dec(e.updatedMs)], ':')
  }

  function Tokens(c: Clock, ids: seq<string>): seq<string>
    requires forall id | id in ids :: id in c
  {
    seq(|ids|, i requires 0 <= i < |ids| => Token(ids[i], c[ids[i]]))
  }

  function Ids(c: Clock): (ids: seq<string>)
    ensures Elements(ids) == c.Keys
    ensures forall id | id in ids :: id in c
  {
    StrLessTotal();
    var ids := Sorted(c.Keys, StrLess);
    assert forall id | id in ids :: id in Elements(ids);
    ids
  }

  /** Entries in id order, so equal clocks have equal tokens. */
  function ClockText(c: Clock): string { Join(Tokens(c, Ids(c)), ',') }

  /** One "node:counter:ts" token: the id, the counter and the timestamp, or None when it is skipped. */
  function ParseToken(t: string): Option<(string, nat, nat)> {
    var i := IndexOf(t, ':');
    if i == |t| || i == 0 || i + 1 == |t| then None
    else
      var tail := t[i + 1..];
      var j := IndexOf(tail, ':');
      var num := tail[..j];
      var ts := if j < |tail| && j + 1 < |tail| then tail[j + 1..] else "0";
      if num == [] then None
      else match (Stoull(num), Stoull(ts))
      case (Some(n), Some(s)) => Some((t[..i], n, s))
      case _ => None
  }

  /** `set` on the parsed token: a zero counter erases. */
  function Absorb(c: Clock, t: string): Clock {
    match ParseToken(t)
    case None => c
    case Some((id, n, s)) => if n == 0 then c - {id} else c[id := Entry(n, s)]
  }

  function AbsorbAll(tokens: seq<string>): Clock {
    if tokens == [] then map[]
    else Absorb(AbsorbAll(tokens[..|tokens| - 1]), tokens[|tokens| - 1])
  }

  function ParseClock(s: string): Clock { AbsorbAll(Split(s, ',')) }

  /** No parsed clock stores a zero. */
  lemma {:induction false} AbsorbAllZeroFree(tokens: seq<string>)
    ensures ZeroFree(AbsorbAll(tokens))
  {
    if tokens != [] { AbsorbAllZeroFree(tokens[..|tokens| - 1]); }
  }

  ghost predicate PlainId(id: string) {
    id != [] && ':' !in id && ',' !in id && '|' !in id
  }

  /** The clocks the system writes: no zero entry, delimiter-free ids, 64-bit numbers. */
  ghost predicate Storable(c: Clock) {
    forall id | id in c :: PlainId(id) && 0 < c[id].counter < TWO64 && c[id].updatedMs < TWO64
  }

  lemma TokenShape(id: string, e: Entry)
    ensures Token(id, e) == id + [':'] + (Dec(e.counter) + [':'] + Dec(e.updatedMs))
  {
    var n, m := Dec(e.counter), Dec(e.updatedMs);
    assert [n, m][1..] == [m] && [id, n, m][1..] == [n, m];
    assert Join([n, m], ':') == n + [':'] + m;
  }

  lemma ParseTokenInverts(id: string, e: Entry)
    requires PlainId(id) && e.counter < TWO64 && e.updatedMs < TWO64
    ensures ParseToken(Token(id, e)) == Some((id, e.counter, e.updatedMs))
  {
    hide Stoull, Token;
    var n, m := Dec(e.counter), Dec(e.updatedMs);
    TokenShape(id, e);
    CutAt(id, ':', n + [':'] + m);
    CutAt(n, ':', m);
    StoullDec(e.counter);
    StoullDec(e.updatedMs);
  }

  lemma AbsorbNext(c: Clock, ids: seq<string>, k: nat)
    requires Storable(c) && (forall id | id in ids :: id in c) && k < |ids|
    ensures AbsorbAll(Tokens(c, ids)[..k + 1]) == AbsorbAll(Tokens(c, ids)[..k])[ids[k] := c[ids[k]]]
  {
    hide ParseToken;
    var ts := Tokens(c, ids);
    assert ids[k] in ids;
    assert ts[..k + 1][..k] == ts[..k] && ts[..k + 1][k] == Token(ids[k], c[ids[k]]);
    ParseTokenInverts(ids[k], c[ids[k]]);
  }

  /** Absorbing the tokens of the ids yields exactly those entries. */
  lemma {:induction false} AbsorbTokens(c: Clock, ids: seq<string>, k: nat)
    requires Storable(c) && (forall id | id in ids :: id in c) && k <= |ids|
    ensures Took(c, ids, k, AbsorbAll(Tokens(c, ids)[..k]))
    decreases k
  {
    if k > 0 {
      AbsorbTokens(c, ids, k - 1);
      AbsorbStep(c, ids, k - 1);
    } else {
      assert Tokens(c, ids)[..0] == [];
    }
  }

  lemma AbsorbStep(c: Clock, ids: seq<string>, k: nat)
    requires Storable(c) && (forall id | id in ids :: id in c) && k < |ids|
    requires Took(c, ids, k, AbsorbAll(Tokens(c, ids)[..k]))
    ensures Took(c, ids, k + 1, AbsorbAll(Tokens(c, ids)[..k + 1]))
  {
    hide AbsorbAll, Tokens;
    AbsorbNext(c, ids, k);
    ElementsSnoc(ids, k);
  }

  /** `r` holds exactly the entries of the first `k` ids. */
  ghost predicate Took(c: Clock, ids: seq<string>, k: nat, r: Clock)
    requires (forall id | id in ids :: id in c) && k <= |ids|
  {
    r.Keys == Elements(ids[..k]) && forall i | 0 <= i < k :: ids[i] in r && r[ids[i]] == c[ids[i]]
  }

  lemma DecFree(n: nat, d: char)
    requires !IsDigit(d)
    ensures d !in Dec(n)
  {
  }

  lemma TokenFree(id: string, e: Entry, d: char)
    requires d !in id && !IsDigit(d) && d != ':'
    ensures d !in Token(id, e)
  {
    DecFree(e.counter, d);
    DecFree(e.updatedMs, d);
    JoinFree([id, Dec(e.counter), Dec(e.updatedMs)], ':', d);
  }

  lemma TokensFree(c: Clock, ids: seq<string>, d: char)
    requires Storable(c) && (forall id | id in ids :: id in c) && (d == ',' || d == '|')
    ensures forall t | t in Tokens(c, ids) :: d !in t
  {
    forall i | 0 <= i < |ids| ensures d !in Tokens(c, ids)[i] {
      assert ids[i] in ids;
      TokenFree(ids[i], c[ids[i]], d);
    }
  }

  lemma EmptyClockText()
    ensures ParseClock("") == map[]
  {
    assert Split("", ',') == [""];
    assert [""][..0] == [];
    assert ParseToken("") == None;
  }

  /** Parsing undoes printing: counters and timestamps come back exactly. */
  lemma ClockRoundTrip(c: Clock)
    requires Storable(c)
    ensures ParseClock(ClockText(c)) == c
  {
    var ids := Ids(c);
    var ts := Tokens(c, ids);
    if ids == [] {
      EmptyClockText();
      assert c.Keys == {};
    } else {
      TokensFree(c, ids, ',');
      SplitJoin(ts, ',');
      AbsorbAllTokens(c, ids);
    }
  }

  lemma AbsorbAllTokens(c: Clock, ids: seq<string>)
    requires Storable(c) && Elements(ids) == c.Keys && forall id | id in ids :: id in c
    ensures AbsorbAll(Tokens(c, ids)) == c
  {
    var ts := Tokens(c, ids);
    assert ts[..|ids|] == ts && ids[..|ids|] == ids;
    AbsorbTokens(c, ids, |ids|);
    SameMap(c, AbsorbAll(ts), ids);
  }

  lemma SameMap(a: Clock, b: Clock, ids: seq<string>)
    requires a.Keys == Elements(ids) == b.Keys
    requires forall i | 0 <= i < |ids| :: ids[i] in a && ids[i] in b && a[ids[i]] == b[ids[i]]
    ensures a == b
  {
    forall id | id in a ensures a[id] == b[id] {
      assert id in Elements(ids);
      var i :| 0 <= i < |ids| && ids[i] == id;
    }
  }

  lemma ClockTextFree(c: Clock)
    requires Storable(c)
    ensures '|' !in ClockText(c)
  {
    TokensFree(c, Ids(c), '|');
    JoinFree(Tokens(c, Ids(c)), ',', '|');
  }

  // -------------------------------------------------------------------------
  // The stored form
  // -------------------------------------------------------------------------

  function Serialize(v: Version): string {
    Encode(v.data) + "|" + ClockText(v.clock) + if v.deleted then "|D" else ""
  }

  function Deserialize(stored: string): Version {
    var bar := IndexOf(stored, '|');
    if bar == |stored| then Version(Decode(stored), map[], false)
    else
      var rest := stored[bar + 1..];
      var bar2 := IndexOf(rest, '|');
      if bar2 == |rest| then Version(Decode(stored[..bar]), ParseClock(rest), false)
      else Version(Decode(stored[..bar]), ParseClock(rest[..bar2]), rest[bar2 + 1..] == "D")
  }

  /** The fields of a stored value are recovered by the two cuts. */
  lemma CutStored(d: string, c: string, deleted: bool)
    requires '|' !in d && '|' !in c
    ensures
      Deserialize(d + "|" + c + if deleted then "|D" else "") == Version(Decode(d), ParseClock(c), deleted)
  {
    var rest := c + if deleted then "|D" else "";
    var s := d + "|" + c + if deleted then "|D" else "";
    assert s == d + ['|'] + rest;
    CutAt(d, '|', rest);
    if deleted {
      assert rest == c + ['|'] + "D";
      CutAt(c, '|', "D");
    } else {
      assert rest == c;
      IndexOfNone(c, '|');
    }
  }

  /** What is stored is read back exactly: data, tombstone flag and clock. */
  lemma StorageRoundTrip(v: Version)
    requires Storable(v.clock)
    ensures Deserialize(Serialize(v)) == v
  {
    var d, c := Encode(v.data), ClockText(v.clock);
    EncodeFree(v.data);
    ClockTextFree(v.clock);
    DecodeEncode(v.data);
    ClockRoundTrip(v.clock);
    CutStored(d, c, v.deleted);
  }

  // -------------------------------------------------------------------------
  // The replication message
  // -------------------------------------------------------------------------

  function ReplicateMessage(key: string, origin: string, v: Version): string {
    Join(["REPLICATE", key, Encode(v.data), origin, ClockText(v.clock)], '|')
  }

  /** What the receiving node hands to `applyReplicate`. */
  function ReceivedVersion(fields: seq<string>): Version
    requires |fields| >= 5
  {
    Version(Decode(fields[2]), ParseClock(fields[4]), false)
  }

  /**
   A replicated version arrives intact exactly when it is not a tombstone: the
   message has no field for the flag, so a delete arrives as a live empty value.
   */
  lemma WireKeepsLiveVersionsOnly(key: string, origin: string, v: Version)
    requires Storable(v.clock) && '|' !in key && '|' !in origin
    ensures
      var fields := Split(ReplicateMessage(key, origin, v), '|');
      |fields| == 5 && fields[0] == "REPLICATE" && fields[1] == key && fields[3] == origin
    ensures
      var got := ReceivedVersion(Split(ReplicateMessage(key, origin, v), '|'));
      got == v.(deleted := false) && (got == v <==> !v.deleted)
  {
    var f := ["REPLICATE", key, Encode(v.data), origin, ClockText(v.clock)];
    EncodeFree(v.data);
    ClockTextFree(v.clock);
    SplitJoin(f, '|');
    DecodeEncode(v.data);
    ClockRoundTrip(v.clock);
  }

  // -------------------------------------------------------------------------
  // The read reply
  // -------------------------------------------------------------------------

  const NOT_FOUND: string := "NOTFOUND"

  function ReplyMessage(o: Option<Version>): string {
    match o
    case None => Join(["VAL", NOT_FOUND], '|')
    case Some(v) => Join(["VAL", Encode(v.data), ClockText(v.clock)], '|')
  }

  /** What the reader makes of a reply: no answer, no such key, or a version. */
  datatype Reply = NoAnswer | Missing | Value(version: Version)

  function FieldOr(f: seq<string>, i: nat): string { if i < |f| then f[i] else "" }

  function ReadReply(reply: string): Reply {
    var f := Split(reply, '|');
    if reply == "" || f[0] != "VAL" then NoAnswer
    else if |f| >= 2 && f[1] == NOT_FOUND then Missing
    else Value(Version(Decode(FieldOr(f, 1)), ParseClock(FieldOr(f, 2)), false))
  }

  lemma ReplyFields(o: Option<Version>)
    requires o.Some? ==> Storable(o.value.clock)
    ensures
      var f := Split(ReplyMessage(o), '|');
      && ReplyMessage(o) != ""
      && f == if o.None? then ["VAL", NOT_FOUND] else ["VAL", Encode(o.value.data), ClockText(o.value.clock)]
  {
    var f := if o.None? then ["VAL", NOT_FOUND] else ["VAL", Encode(o.value.data), ClockText(o.value.clock)];
    if o.Some? {
      EncodeFree(o.value.data);
      ClockTextFree(o.value.clock);
    }
    SplitJoin(f, '|');
  }

  /**
   A reply is read as the version that was sent, less its tombstone flag, unless its
   data happens to encode to the word that says there is none.
   */
  lemma ReplyReadIff(v: Version)
    requires Storable(v.clock)
    ensures ReadReply(ReplyMessage(None)) == Missing
    ensures ReadReply(ReplyMessage(Some(v))) == Value(v.(deleted := false)) <==> Encode(v.data) != NOT_FOUND
    ensures Encode(v.data) == NOT_FOUND ==> ReadReply(ReplyMessage(Some(v))) == Missing
  {
    hide Encode, Decode, Split, ReplyMessage, ParseClock, ClockText, Storable;
    ReplyFields(None);
    ReplyFields(Some(v));
    DecodeEncode(v.data);
    ClockRoundTrip(v.clock);
  }

  /** Six bytes that do. */
  lemma UnreadableValue(clock: Clock)
    requires Storable(clock)
    ensures
      var data := [52, 228, 197, 57, 67, 67];
      Encode(data) == NOT_FOUND && ReadReply(ReplyMessage(Some(Version(data, clock, false)))) == Missing
  {
    hide ReadReply, ReplyMessage, Storable;
    var data: seq<byte> := [52, 228, 197, 57, 67, 67];
    SixBytes();
    ReplyReadIff(Version(data, clock, false));
  }

  lemma FirstThree()
    ensures Block(Group(52, 228, 197), 4) == "NOTF"
  {
  }

  lemma LastThree()
    ensures Block(Group(57, 67, 67), 4) == "OUND"
  {
  }

  lemma SixBytes()
    ensures Encode([52, 228, 197, 57, 67, 67]) == NOT_FOUND
  {
    hide Block, Group;
    var data: seq<byte> := [52, 228, 197, 57, 67, 67];
    FirstThree();
    LastThree();
    assert data[3..] == [57, 67, 67] && data[3..][3..] == [];
    assert Encode([57, 67, 67]) == "OUND" + Encode([]);
  }

  // -------------------------------------------------------------------------
  // The loops
  // -------------------------------------------------------------------------

  method PrintClock(c: Clock) returns (out: string)
    ensures out == ClockText(c)
  {
    out := PrintJoined(Tokens(c, Ids(c)), ',');
  }

  method ReadClock(s: string) returns (c: Clock)
    ensures c == ParseClock(s) && ZeroFree(c)
  {
    var tokens := SplitAll(s, ',');
    c := map[];
    var i := 0;
    while i < |tokens|
      invariant 0 <= i <= |tokens|
      invariant c == AbsorbAll(tokens[..i])
    {
      assert tokens[..i + 1][..i] == tokens[..i];
      c := Absorb(c, tokens[i]);
      i := i + 1;
    }
    assert tokens[..i] == tokens;
    AbsorbAllZeroFree(tokens);
  }
}
