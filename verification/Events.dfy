/** One cluster member's identity and address. */
module Nodes {
  datatype NodeInfo = NodeInfo(nodeId: string, host: string, port: nat)
}

/**
 Membership events and the text form in which they ride on SWIM messages:
 "TYPE:node:host:port:incarnation", several joined by ';'.
 */
module Events {
  import opened Text

  datatype Kind = Join | Suspect | Dead | Leave | Alive | Unknown(c: char)

  datatype Event = Event(kind: Kind, nodeId: string, host: string, port: nat, incarnation: nat)

  function KindChar(k: Kind): char {
    match k
    case Join => 'J'
    case Suspect => 'S'
    case Dead => 'D'
    case Leave => 'L'
    case Alive => 'A'
    case Unknown(c) => c
  }

  function KindOf(c: char): Kind {
    if c == 'J' then Join else if c == 'S' then Suspect else if c == 'D' then Dead
    else if c == 'L' then Leave else if c == 'A' then Alive else Unknown(c)
  }

  /** `isValidNodeId`: 1 to 64 characters of [A-Za-z0-9._-]. */
  predicate ValidId(id: string) {
    0 < |id| <= 64 && forall c | c in id :: ValidIdChar(c)
  }

  predicate ValidIdChar(c: char) {
    'a' <= c <= 'z' || 'A' <= c <= 'Z' || '0' <= c <= '9' || c == '.' || c == '_' || c == '-'
  }

  function Serialize(e: Event): string {
    [KindChar(e.kind)] + [':'] + (e.nodeId + [':'] + (e.host + [':'] + (Dec(e.port) + [':'] + Dec(e.incarnation))))
  }

  /** The text form, spelled out once. */
  lemma EventText()
    ensures Serialize(Event(Suspect, "n1", "h", 80, 3)) == "S:n1:h:80:3"
  {
    assert Dec(8) == "8" && Dec(80) == Dec(8) + "0" && Dec(3) == "3";
  }

  const Blank: Event := Event(Alive, "", "", 0, 0)

  /** Total: malformed input yields an event filled in as far as it could be read. */
  function Deserialize(s: string): Event {
    if |s| < 3 || s[1] != ':' then Blank else ReadId(Blank.(kind := KindOf(s[0])), s[2..])
  }

  function ReadId(e: Event, s: string): Event {
    var i := IndexOf(s, ':');
    if i == |s| then e else ReadHost(e.(nodeId := s[..i]), s[i + 1..])
  }

  function ReadHost(e: Event, s: string): Event {
    var i := IndexOf(s, ':');
    if i == |s| then e else ReadTail(e.(host := s[..i]), s[i + 1..])
  }

  function ReadTail(e: Event, s: string): Event {
    var i := IndexOf(s, ':');
    if i == |s| then e else e.(port := ReadPort(s[..i]), incarnation := ReadIncarnation(s[i + 1..]))
  }

  function ReadPort(s: string): nat {
    match Stoi(s) case None => 0 case Some(v) => v % 65536
  }

  function ReadIncarnation(s: string): nat {
    match Stoull(s) case None => 0 case Some(v) => v
  }

  /** The events the system sends: a known type, 16- and 64-bit numbers, no delimiter in id or host. */
  ghost predicate WireSafe(e: Event) {
    && !e.kind.Unknown? && e.port < 65536 && e.incarnation < TWO64
    && ':' !in e.nodeId && ';' !in e.nodeId && '|' !in e.nodeId
    && ':' !in e.host && ';' !in e.host && '|' !in e.host
  }

  lemma TailInverts(d: Event, e: Event)
    requires WireSafe(e)
    ensures ReadTail(d, Dec(e.port) + [':'] + Dec(e.incarnation)) == d.(port := e.port, incarnation := e.incarnation)
  {
    CutAt(Dec(e.port), ':', Dec(e.incarnation));
    StoiDec(e.port);
    StoullDec(e.incarnation);
  }

  lemma HostInverts(d: Event, e: Event)
    requires WireSafe(e)
    ensures ReadHost(d, e.host + [':'] + (Dec(e.port) + [':'] + Dec(e.incarnation))) ==
            d.(host := e.host, port := e.port, incarnation := e.incarnation)
  {
    hide ReadTail;
    CutAt(e.host, ':', Dec(e.port) + [':'] + Dec(e.incarnation));
    TailInverts(d.(host := e.host), e);
  }

  lemma EventRoundTrip(e: Event)
    requires WireSafe(e)
    ensures Deserialize(Serialize(e)) == e
  {
    hide ReadHost;
    var t3 := e.host + [':'] + (Dec(e.port) + [':'] + Dec(e.incarnation));
    var t2 := e.nodeId + [':'] + t3;
    var s := Serialize(e);
    assert s == [KindChar(e.kind)] + [':'] + t2;
    assert s[2..] == t2;
    CutAt(e.nodeId, ':', t3);
    HostInverts(Blank.(kind := e.kind, nodeId := e.nodeId), e);
  }

  // -------------------------------------------------------------------------
  // Lists
  // -------------------------------------------------------------------------

  function Lines(es: seq<Event>): seq<string> {
    seq(|es|, i requires 0 <= i < |es| => Serialize(es[i]))
  }

  function SerializeAll(es: seq<Event>): string { Text.Join(Lines(es), ';') }

  /** Empty tokens are skipped. */
  function ReadLines(lines: seq<string>): seq<Event> {
    if lines == [] then []
    else
      var last := lines[|lines| - 1];
      ReadLines(lines[..|lines| - 1]) + if last == [] then [] else [Deserialize(last)]
  }

  function DeserializeAll(s: string): seq<Event> { ReadLines(Split(s, ';')) }

  lemma SerializedFree(e: Event, d: char)
    requires WireSafe(e) && (d == ';' || d == '|')
    ensures d !in Serialize(e) && Serialize(e) != []
  {
    assert d !in Dec(e.port) && d !in Dec(e.incarnation);
  }

  lemma {:induction false} ReadLinesInverts(es: seq<Event>, k: nat)
    requires k <= |es| && forall e | e in es :: WireSafe(e)
    ensures ReadLines(Lines(es)[..k]) == es[..k]
    decreases k
  {
    hide Deserialize, Serialize;
    if k > 0 {
      var ls := Lines(es);
      assert es[k - 1] in es;
      assert ls[..k][..k - 1] == ls[..k - 1] && ls[..k][k - 1] == Serialize(es[k - 1]);
      ReadLinesInverts(es, k - 1);
      EventRoundTrip(es[k - 1]);
      SerializedFree(es[k - 1], ';');
      assert es[..k] == es[..k - 1] + [es[k - 1]];
    }
  }

  /** A list of events survives the wire, in order. */
  lemma EventsRoundTrip(es: seq<Event>)
    requires forall e | e in es :: WireSafe(e)
    ensures DeserializeAll(SerializeAll(es)) == es
  {
    if es == [] {
      assert Lines(es) == [];
      assert Split("", ';') == [""];
      assert [""][..0] == [];
    } else {
      forall l | l in Lines(es) ensures ';' !in l {
        var i :| 0 <= i < |es| && l == Serialize(es[i]);
        SerializedFree(es[i], ';');
      }
      SplitJoin(Lines(es), ';');
      ReadLinesInverts(es, |es|);
      assert Lines(es)[..|es|] == Lines(es) && es[..|es|] == es;
    }
  }

  lemma SerializeAllFree(es: seq<Event>)
    requires forall e | e in es :: WireSafe(e)
    ensures '|' !in SerializeAll(es)
  {
    forall l | l in Lines(es) ensures '|' !in l {
      var i :| 0 <= i < |es| && l == Serialize(es[i]);
      SerializedFree(es[i], '|');
    }
    JoinFree(Lines(es), ';', '|');
  }

  method SerializeEvents(es: seq<Event>) returns (out: string)
    ensures out == SerializeAll(es)
  {
    out := PrintJoined(Lines(es), ';');
  }

  method DeserializeEvents(s: string) returns (out: seq<Event>)
    ensures out == DeserializeAll(s)
  {
    var lines := SplitAll(s, ';');
    out := [];
    for i := 0 to |lines|
      invariant out == ReadLines(lines[..i])
    {
      assert lines[..i + 1][..i] == lines[..i];
      if lines[i] != [] { out := out + [Deserialize(lines[i])]; }
    }
    assert lines[..|lines|] == lines;
  }
}
