/** The reply to `events.since` and how `vant agent watch` reads it (src/native_app.cpp:4545, src/agent_rpc.cpp:200). */
module WatchReply {
  import opened Text
  import opened JsonText
  import opened JsonField
  import opened JsonTree
  import opened JsonFieldLaws
  import opened AgentWire
  import EventLog

  /** An event as it is printed: its payload is a JSON text. */
  datatype Entry = Entry(sequence: nat, kind: Bytes, payload: Json)

  function EventText(e: Entry): Bytes {
    "{\"sequence\":" + Decimal(e.sequence) + ",\"type\":" + JsonString(e.kind) + ",\"data\":" + Print(e.payload) + "}"
  }

  function EventsText(events: seq<Entry>): Bytes {
    if events == [] then []
    else EventText(events[0]) + (if |events| == 1 then [] else ",") + EventsText(events[1..])
  }

  function SinceText(latest: nat, dropped: nat, events: seq<Entry>): Bytes {
    "{\"latest\":" + Decimal(latest) + ",\"dropped\":" + Decimal(dropped) + ",\"events\":[" + EventsText(events) + "]}"
  }

  // ----- The reply is well formed -----

  datatype SinceNames = SinceNames(latest: Key, dropped: Key, events: Key, sequence: Key, kind: Key, data: Key)

  predicate IsStandard(n: SinceNames) {
    n.latest == "latest" && n.dropped == "dropped" && n.events == "events" && n.sequence == "sequence" &&
    n.kind == "type" && n.data == "data"
  }

  lemma StandardSinceNames() returns (n: SinceNames)
    ensures IsStandard(n)
  {
    n := SinceNames("latest", "dropped", "events", "sequence", "type", "data");
  }

  function NumberTree(n: nat): Json {
    assert forall i :: 0 <= i < |Decimal(n)| ==> IsNumberByte(Decimal(n)[i]);
    Number(Decimal(n))
  }

  function EventTree(n: SinceNames, e: Entry): Json {
    Obj([Member(Plain(n.sequence), NumberTree(e.sequence))] + [StringMember(n.kind, e.kind)]
        + [Member(Plain(n.data), e.payload)] + [])
  }

  function EventTrees(n: SinceNames, events: seq<Entry>): seq<Json> {
    if events == [] then [] else [EventTree(n, events[0])] + EventTrees(n, events[1..])
  }

  function SinceTree(n: SinceNames, latest: nat, dropped: nat, events: seq<Entry>): Json {
    Obj([Member(Plain(n.latest), NumberTree(latest))] + [Member(Plain(n.dropped), NumberTree(dropped))]
        + [Member(Plain(n.events), Arr(EventTrees(n, events)))] + [])
  }

  lemma PrintThree(a: Member, b: Member, c: Member)
    ensures Print(Obj([a] + [b] + [c] + [])) == "{" + PrintMember(a) + "," + PrintMember(b) + "," + PrintMember(c) + "}"
  {
    hide PrintMember, Print, PrintMembers;
    PrintObject([a] + [b], c, []);
    PrintBeforeMore([a], b);
    PrintOneMember(a);
    NothingBehind();
    RegroupThree(PrintMember(a), PrintMember(b), PrintMember(c));
  }

  lemma RegroupThree(a: Bytes, b: Bytes, c: Bytes)
    ensures ("{" + a + ",") + b + "," + c + "}" == "{" + a + "," + b + "," + c + "}"
  {
  }

  lemma PlainMember(key: Key, value: Json)
    ensures PrintMember(Member(Plain(key), value)) == "\"" + key + "\":" + Print(value)
  {
    hide KeyText, Print;
    PlainName(key);
    assert "\"" + key + "\"" + ":" == "\"" + key + "\":";
  }

  lemma PrintNumber(n: nat)
    ensures Print(NumberTree(n)) == Decimal(n)
  {
    hide Decimal;
  }

  lemma PrintText(v: Bytes)
    ensures Print(Str(Encoded(v))) == JsonString(v)
  {
    hide Escape, IsBody;
  }

  lemma EventLiterals(n: SinceNames)
    requires IsStandard(n)
    ensures "{\"sequence\":" == "{" + ("\"" + n.sequence + "\":")
    ensures ",\"type\":" == "," + ("\"" + n.kind + "\":") && ",\"data\":" == "," + ("\"" + n.data + "\":")
  {
  }

  lemma EventIsTree(n: SinceNames, e: Entry)
    requires IsStandard(n)
    ensures EventText(e) == Print(EventTree(n, e))
  {
    EventLiterals(n);
    hide IsStandard, Print, Decimal, JsonString, NumberTree, PrintMember;
    PrintThree(Member(Plain(n.sequence), NumberTree(e.sequence)), StringMember(n.kind, e.kind),
               Member(Plain(n.data), e.payload));
    PlainMember(n.sequence, NumberTree(e.sequence));
    PlainMember(n.kind, Str(Encoded(e.kind)));
    PlainMember(n.data, e.payload);
    PrintNumber(e.sequence);
    PrintText(e.kind);
    RegroupMembers("\"" + n.sequence + "\":", Decimal(e.sequence), "\"" + n.kind + "\":", JsonString(e.kind),
                   "\"" + n.data + "\":", Print(e.payload));
  }

  lemma RegroupMembers(k1: Bytes, v1: Bytes, k2: Bytes, v2: Bytes, k3: Bytes, v3: Bytes)
    ensures ("{" + k1) + v1 + ("," + k2) + v2 + ("," + k3) + v3 + "}"
            == "{" + (k1 + v1) + "," + (k2 + v2) + "," + (k3 + v3) + "}"
  {
  }

  lemma {:induction false} EventsAreTrees(n: SinceNames, events: seq<Entry>)
    requires IsStandard(n)
    ensures EventsText(events) == PrintItems(EventTrees(n, events)) && |EventTrees(n, events)| == |events|
  {
    hide EventText, EventTree, IsStandard, Print;
    if events == [] {
    } else {
      EventIsTree(n, events[0]);
      EventsAreTrees(n, events[1..]);
      assert EventTrees(n, events)[1..] == EventTrees(n, events[1..]);
    }
  }

  lemma SinceLiterals(n: SinceNames)
    requires IsStandard(n)
    ensures "{\"latest\":" == "{" + ("\"" + n.latest + "\":")
    ensures ",\"dropped\":" == "," + ("\"" + n.dropped + "\":")
    ensures ",\"events\":[" == "," + ("\"" + n.events + "\":") + "["
  {
  }

  lemma PrintArray(items: seq<Json>)
    ensures Print(Arr(items)) == "[" + PrintItems(items) + "]"
  {
    hide PrintItems;
    assert [] + PrintItems(items) == PrintItems(items);
  }

  /** A quoted name and its colon. */
  function Label(key: Key): Bytes { "\"" + key + "\":" }

  lemma SinceLabels(n: SinceNames, latest: nat, dropped: nat, events: seq<Entry>)
    requires IsStandard(n)
    ensures SinceText(latest, dropped, events)
            == ("{" + Label(n.latest)) + Decimal(latest) + ("," + Label(n.dropped)) + Decimal(dropped)
               + ("," + Label(n.events) + "[") + EventsText(events) + "]}"
  {
    SinceLiterals(n);
    hide IsStandard, Decimal, EventsText;
  }

  lemma SinceMembers(n: SinceNames, latest: nat, dropped: nat, events: seq<Entry>)
    ensures Print(SinceTree(n, latest, dropped, events))
            == "{" + (Label(n.latest) + Decimal(latest)) + "," + (Label(n.dropped) + Decimal(dropped)) + ","
               + (Label(n.events) + ("[" + PrintItems(EventTrees(n, events)) + "]")) + "}"
  {
    hide Print, Decimal, NumberTree, EventTrees, PrintMember, PrintItems;
    var list := Arr(EventTrees(n, events));
    PrintThree(Member(Plain(n.latest), NumberTree(latest)), Member(Plain(n.dropped), NumberTree(dropped)),
               Member(Plain(n.events), list));
    PlainMember(n.latest, NumberTree(latest));
    PlainMember(n.dropped, NumberTree(dropped));
    PlainMember(n.events, list);
    PrintNumber(latest);
    PrintNumber(dropped);
    PrintArray(EventTrees(n, events));
  }

  /** The reply's result is a printed JSON tree. */
  lemma SinceIsTree(n: SinceNames, latest: nat, dropped: nat, events: seq<Entry>)
    requires IsStandard(n)
    ensures SinceText(latest, dropped, events) == Print(SinceTree(n, latest, dropped, events))
  {
    hide IsStandard, Print, Decimal, EventsText, EventTrees, PrintItems, SinceText, SinceTree, Label;
    SinceLabels(n, latest, dropped, events);
    SinceMembers(n, latest, dropped, events);
    EventsAreTrees(n, events);
    RegroupSince(Label(n.latest), Decimal(latest), Label(n.dropped), Decimal(dropped), Label(n.events),
                 EventsText(events));
  }

  lemma RegroupSince(k1: Bytes, v1: Bytes, k2: Bytes, v2: Bytes, k3: Bytes, v3: Bytes)
    ensures ("{" + k1) + v1 + ("," + k2) + v2 + ("," + k3 + "[") + v3 + "]}"
            == "{" + (k1 + v1) + "," + (k2 + v2) + "," + (k3 + ("[" + v3 + "]")) + "}"
  {
  }

  // ----- What the watching client makes of it -----

  lemma LatestIsFound(n: SinceNames, latest: nat, dropped: nat, events: seq<Entry>)
    requires IsStandard(n)
    ensures FieldOf(SinceText(latest, dropped, events), n.latest) == Some(Decimal(latest))
  {
    hide IsStandard, Print, Decimal, FieldOf, EventTrees, FieldValue;
    var first := Member(Plain(n.latest), NumberTree(latest));
    var rest := [Member(Plain(n.dropped), NumberTree(dropped))] + [Member(Plain(n.events), Arr(EventTrees(n, events)))];
    SinceIsTree(n, latest, dropped, events);
    FieldOfMember([], [], n.latest, [], NumberTree(latest), rest, []);
    assert [] + [first] + rest == [first] + [rest[0]] + [rest[1]] + [];
    assert Print(SinceTree(n, latest, dropped, events)) + [] == Print(SinceTree(n, latest, dropped, events));
    NumberValue(latest);
  }

  lemma NumberValue(n: nat)
    ensures FieldValue(NumberTree(n)) == Decimal(n)
  {
    PrintNumber(n);
    hide Decimal, Print;
  }

  /**
   * For every list of events, whatever their types and payloads contain, the watching client
   * finds the result in the reply and the latest sequence in the result.
   */
  lemma WatchReadsLatest(latest: nat, dropped: nat, events: seq<Entry>)
    ensures var result := SinceText(latest, dropped, events);
            && FieldOf(AgentOk("cli", result) + "\n", "result") == Some(result)
            && FieldOf(result, "latest") == Some(Decimal(latest))
            && AllDigits(Decimal(latest)) && ReadNat(Decimal(latest)) == latest
  {
    hide FieldOf, AgentOk, SinceText, Decimal;
    var n := StandardSinceNames();
    LatestIsFound(n, latest, dropped, events);
    ResultIsFound(n, latest, dropped, events);
    ReadDecimal(latest);
  }

  lemma ResultIsFound(n: SinceNames, latest: nat, dropped: nat, events: seq<Entry>)
    requires IsStandard(n)
    ensures FieldOf(AgentOk("cli", SinceText(latest, dropped, events)) + "\n", "result")
            == Some(SinceText(latest, dropped, events))
  {
    hide FieldOf, AgentOk, Print, SinceText, FieldValue, Decimal, IsStandard, SinceTree;
    SinceIsTree(n, latest, dropped, events);
    var tree := SinceTree(n, latest, dropped, events);
    TreeIsObject(n, latest, dropped, events);
    CliReply(tree);
  }

  lemma TreeIsObject(n: SinceNames, latest: nat, dropped: nat, events: seq<Entry>)
    ensures SinceTree(n, latest, dropped, events).Obj?
  {
  }

  /** So its cursor becomes the one of the watching reader of the event log. */
  lemma WatchMovesToLatest(log: EventLog.Log, reader: EventLog.Reader, limit: nat, dropped: nat, events: seq<Entry>)
    requires log.low <= |log.history|
    ensures var result := SinceText(|log.history|, dropped, events);
            match FieldOf(result, "latest")
            case None => false
            case Some(digits) =>
              AllDigits(digits) && EventLog.WatchReader(log, reader, limit).cursor == ReadNat(digits)
  {
    hide FieldOf, SinceText, Decimal;
    WatchReadsLatest(|log.history|, dropped, events);
  }
}
