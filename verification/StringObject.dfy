/** `json_param_string_object`: a parameter that must be an object of strings (src/agent_rpc.cpp:127-144). */
module StringObject {
  import opened Text
  import opened JsonText
  import opened JsonField
  import opened JsonTree
  import opened JsonFieldLaws

  type Pair = (Bytes, Bytes)

  /** `string_value`: a string literal behind optional white space. */
  function StringValue(s: Bytes): (r: Option<(Bytes, Bytes)>)
    ensures r.Some? ==> |r.value.1| < |s|
  {
    ReadString(SkipSpace(s))
  }

  function ConsPair(p: Pair, rest: Option<seq<Pair>>): Option<seq<Pair>> {
    match rest
    case None => None
    case Some(ps) => Some([p] + ps)
  }

  /** One name, colon and value, and the text behind them. */
  function PairAt(s: Bytes): (r: Option<(Pair, Bytes)>)
    ensures r.Some? ==> |r.value.1| < |s|
  {
    match StringValue(s)
    case None => None
    case Some((k, afterKey)) =>
      var colon := SkipSpace(afterKey);
      if colon == [] || colon[0] != ':' then None
      else
        match StringValue(colon[1..])
        case None => None
        case Some((v, afterValue)) => Some(((k, v), SkipSpace(afterValue)))
  }

  function PairsFrom(s: Bytes): Option<seq<Pair>>
    decreases |s|
  {
    if s == [] then Some([])
    else
      match PairAt(s)
      case None => None
      case Some((pair, rest)) =>
        if rest != [] && rest[0] == ',' then ConsPair(pair, PairsFrom(rest[1..]))
        else if rest != [] && rest[0] == '}' then Some([pair])
        else None
  }

  function PairsOf(raw: Bytes): Option<seq<Pair>> {
    if |raw| < 2 || raw[0] != '{' || raw[|raw| - 1] != '}' then None
    else
      var s := SkipSpace(raw[1..]);
      if s != [] && s[0] == '}' then Some([]) else PairsFrom(s)
  }

  function StringObjectOf(json: Bytes, key: Bytes): Option<seq<Pair>> {
    match FieldOf(json, key)
    case None => None
    case Some(raw) => PairsOf(raw)
  }

  // ----- The cursor code -----

  method ReadStringValue(raw: Bytes, start: nat) returns (v: Option<Bytes>, p: nat)
    requires start <= |raw|
    ensures match StringValue(raw[start..])
            case None => v == None
            case Some((text, rest)) => v == Some(text) && p <= |raw| && raw[p..] == rest
  {
    p := SkipSpaceFrom(raw, start);
    if p >= |raw| || raw[p] != '\"' { return None, p; }
    v, p := ReadJsonString(raw, p);
  }

  method ReadPair(raw: Bytes, start: nat) returns (pair: Option<Pair>, p: nat)
    requires start <= |raw|
    ensures match PairAt(raw[start..])
            case None => pair == None
            case Some((kv, rest)) => pair == Some(kv) && p <= |raw| && raw[p..] == rest
  {
    hide StringValue;
    var k, v;
    k, p := ReadStringValue(raw, start);
    if k.None? { return None, p; }
    p := SkipSpaceFrom(raw, p);
    if p >= |raw| || raw[p] != ':' { return None, p; }
    assert raw[p..][1..] == raw[p + 1..];
    v, p := ReadStringValue(raw, p + 1);
    if v.None? { return None, p; }
    p := SkipSpaceFrom(raw, p);
    pair := Some((k.value, v.value));
  }

  function ConcatPairs(out: seq<Pair>, rest: Option<seq<Pair>>): Option<seq<Pair>> {
    match rest
    case None => None
    case Some(ps) => Some(out + ps)
  }

  lemma ConcatNothing(rest: Option<seq<Pair>>)
    ensures ConcatPairs([], rest) == rest
  {
    if rest.Some? {
      assert [] + rest.value == rest.value;
    }
  }

  lemma ConcatCons(out: seq<Pair>, p: Pair, rest: Option<seq<Pair>>)
    ensures ConcatPairs(out, ConsPair(p, rest)) == ConcatPairs(out + [p], rest)
  {
    if rest.Some? {
      assert out + ([p] + rest.value) == out + [p] + rest.value;
    }
  }

  method ReadPairs(raw: Bytes, start: nat) returns (r: Option<seq<Pair>>)
    requires start <= |raw|
    ensures r == PairsFrom(raw[start..])
  {
    hide PairAt;
    var out: seq<Pair>, p := [], start;
    ConcatNothing(PairsFrom(raw[start..]));
    while p < |raw|
      invariant p <= |raw|
      invariant PairsFrom(raw[start..]) == ConcatPairs(out, PairsFrom(raw[p..]))
      decreases |raw| - p
    {
      var pair, q := ReadPair(raw, p);
      if pair.None? { return None; }
      ghost var rest := raw[q..];
      assert |rest| < |raw[p..]|;
      out := out + [pair.value];
      if q < |raw| && raw[q] == ',' {
        assert raw[q..][1..] == raw[q + 1..];
        ConcatCons(out[..|out| - 1], pair.value, PairsFrom(raw[q + 1..]));
        p := q + 1;
        continue;
      }
      if q < |raw| && raw[q] == '}' { return Some(out); }
      return None;
    }
    assert out + [] == out;
    r := Some(out);
  }

  method JsonParamStringObject(json: Bytes, key: Bytes) returns (r: Option<seq<Pair>>)
    ensures r == StringObjectOf(json, key)
  {
    hide FieldOf, PairsFrom;
    var field := Field(json, key);
    if field.None? { return None; }
    var raw := field.value;
    if |raw| < 2 || raw[0] != '{' || raw[|raw| - 1] != '}' { return None; }
    var p := SkipSpaceFrom(raw, 1);
    if p < |raw| && raw[p] == '}' { return Some([]); }
    r := ReadPairs(raw, p);
  }

  // ----- Printed objects -----

  predicate AllStrings(members: seq<Member>) {
    forall i :: 0 <= i < |members| ==> Core(members[i].value).Str?
  }

  function StringPairs(members: seq<Member>): (ps: seq<Pair>)
    requires AllStrings(members)
    ensures |ps| == |members|
    ensures forall i :: 0 <= i < |ps| ==> ps[i] == (BodyValue(members[i].key), BodyValue(Core(members[i].value).body))
  {
    seq(|members|, i requires 0 <= i < |members| => (BodyValue(members[i].key), BodyValue(Core(members[i].value).body)))
  }

  lemma StringValueOfLiteral(lead: Space, b: Body, rest: Bytes)
    ensures StringValue(lead + (Quoted(b) + rest)) == Some((BodyValue(b), rest))
  {
    hide IsBody, ReadString;
    SkipSpaceOver(lead, Quoted(b) + rest);
    NoSpaceToSkip(Quoted(b) + rest);
    ReadQuoted(b, rest);
  }

  /** A printed value is read as a string only if it is one; the white space behind it is left. */
  lemma StringValueOfTree(t: Json, rest: Bytes) returns (trail: Space)
    ensures StringValue(Print(t) + rest) == if Core(t).Str? then Some((BodyValue(Core(t).body), trail + rest)) else None
  {
    hide IsBody, Print;
    var lead;
    lead, trail := Unpad(t);
    var p := Print(Core(t));
    assert Print(t) + rest == lead + (p + (trail + rest));
    PrintShape(Core(t));
    if Core(t).Str? {
      StringText(Core(t));
      StringValueOfLiteral(lead, Core(t).body, trail + rest);
    } else {
      SkipSpaceOver(lead, p + (trail + rest));
      NoSpaceToSkip(p + (trail + rest));
    }
  }

  lemma PairOfMember(m: Member, rest: Bytes)
    requires rest != [] && !IsSpace(rest[0])
    ensures PairAt(PrintMember(m) + rest)
            == if Core(m.value).Str? then Some(((BodyValue(m.key), BodyValue(Core(m.value).body)), rest)) else None
  {
    hide StringValue, Quoted, Print, Core, SkipSpace;
    var behind := Print(m.value) + rest;
    RegroupPair(m.lead, Quoted(m.key), m.trail, Print(m.value), rest);
    StringValueOfLiteral(m.lead, m.key, m.trail + (":" + behind));
    SkipSpaceOver(m.trail, ":" + behind);
    NoSpaceToSkip(":" + behind);
    assert (":" + behind)[1..] == behind;
    var trail := StringValueOfTree(m.value, rest);
    SkipSpaceOver(trail, rest);
    NoSpaceToSkip(rest);
  }

  lemma RegroupPair(l: Bytes, k: Bytes, t: Bytes, v: Bytes, rest: Bytes)
    ensures (l + k + t) + ":" + v + rest == l + (k + (t + (":" + (v + rest))))
  {
  }

  lemma {:induction false} PairsOfMembers(members: seq<Member>, rest: Bytes)
    requires members != []
    ensures PairsFrom(PrintMembers(members) + ("}" + rest))
            == if AllStrings(members) then Some(StringPairs(members)) else None
  {
    hide PairAt, PrintMember, Core, AllStrings, StringPairs;
    var m, more, end := members[0], members[1..], "}" + rest;
    FirstPair(members);
    if more == [] {
      NoPairs();
      assert PrintMembers(members) + end == PrintMember(m) + end;
      PairOfMember(m, end);
      assert AllStrings(members) ==> StringPairs(members) == [(BodyValue(m.key), BodyValue(Core(m.value).body))];
    } else {
      var behind := PrintMembers(more) + end;
      assert PrintMembers(members) + end == PrintMember(m) + ("," + behind);
      PairOfMember(m, "," + behind);
      assert ("," + behind)[1..] == behind;
      PairsOfMembers(more, rest);
    }
  }

  lemma FirstPair(members: seq<Member>)
    requires members != []
    ensures var m, more := members[0], members[1..];
            && (AllStrings(members) <==> Core(m.value).Str? && AllStrings(more))
            && (AllStrings(members) ==>
                  StringPairs(members) == [(BodyValue(m.key), BodyValue(Core(m.value).body))] + StringPairs(more))
  {
    hide Core, BodyValue, IsBody;
    assert members == [members[0]] + members[1..];
  }

  lemma SpaceBeforePairs(s: Bytes)
    ensures SkipSpace(s) != [] ==> PairsFrom(SkipSpace(s)) == PairsFrom(s)
  {
    hide ReadString;
    SkipSpaceTwice(s);
  }

  lemma {:induction false} SkipSpaceTwice(s: Bytes)
    ensures SkipSpace(SkipSpace(s)) == SkipSpace(s)
  {
    if s != [] && IsSpace(s[0]) { SkipSpaceTwice(s[1..]); }
  }

  /**
   * An object whose values are all strings gives its pairs, and any other one is refused. Text
   * that ends with a brace may follow.
   */
  lemma PairsOfObject(members: seq<Member>, gap: Space, rest: Bytes)
    requires rest == [] || rest[|rest| - 1] == '}'
    ensures PairsOf(Print(Obj(members, gap)) + rest) == if AllStrings(members) then Some(StringPairs(members)) else None
  {
    hide PrintMembers, PairsFrom, Print, AllStrings, StringPairs, SkipSpace;
    var body := PrintMembers(members) + ("}" + rest);
    ObjectText(members, gap, rest);
    SkipSpaceOver(gap, body);
    if members == [] {
      NoMembers();
      NoPairs();
      assert body == "}" + rest;
      NoSpaceToSkip(body);
    } else {
      MembersStart(members, rest);
      SpaceBeforePairs(body);
      PairsOfMembers(members, rest);
    }
  }

  lemma ObjectText(members: seq<Member>, gap: Space, rest: Bytes)
    requires rest == [] || rest[|rest| - 1] == '}'
    ensures var raw := Print(Obj(members, gap)) + rest;
            && |raw| >= 2 && raw[0] == '{' && raw[|raw| - 1] == '}'
            && raw[1..] == gap + (PrintMembers(members) + ("}" + rest))
  {
    hide PrintMembers;
  }

  lemma NoPairs()
    ensures AllStrings([]) && StringPairs([]) == []
  {
  }

  lemma MembersStart(members: seq<Member>, rest: Bytes)
    requires members != []
    ensures var s := SkipSpace(PrintMembers(members) + ("}" + rest)); s != [] && s[0] == '\"'
  {
    hide Print, IsBody;
    var m, end := members[0], "}" + rest;
    var k, sep: Bytes := Quoted(m.key), if |members| == 1 then [] else ",";
    var behind := m.trail + (":" + (Print(m.value) + (sep + (PrintMembers(members[1..]) + end))));
    RegroupFirst(m.lead, k, m.trail, Print(m.value), sep, PrintMembers(members[1..]), end);
    SkipSpaceOver(m.lead, k + behind);
    NoSpaceToSkip(k + behind);
  }

  lemma RegroupFirst(l: Bytes, k: Bytes, t: Bytes, v: Bytes, sep: Bytes, q: Bytes, end: Bytes)
    ensures (l + k + t) + ":" + v + sep + q + end == l + (k + (t + (":" + (v + (sep + (q + end))))))
  {
  }

  /**
   * For an object under `key`, behind members that do not mention it, the reader gives the
   * pairs in order and with duplicates when every value is a string, and refuses the object
   * otherwise: the depth scan and the pair loop agree on where the object ends.
   */
  lemma StringObjectRoundTrip(before: seq<Member>, lead: Space, key: Key, trail: Space, value: Json,
                              behind: seq<Member>, after: Bytes)
    requires QuietMembers(before, key) && Core(value).Obj?
    ensures var members := Core(value).members;
            StringObjectOf(Print(Obj(before + [Member(Plain(key), value, lead, trail)] + behind)) + after, key)
            == if AllStrings(members) then Some(StringPairs(members)) else None
  {
    hide FieldOf, Print, PairsOf, AllStrings, StringPairs;
    FieldOfMember(before, lead, key, trail, value, behind, after);
    PairsOfObject(Core(value).members, Core(value).gap, []);
    assert Print(Core(value)) + [] == Print(Core(value));
  }

  // ----- What is accepted is an object of strings -----

  lemma {:induction false} SpaceBefore(s: Bytes) returns (space: Space)
    ensures s == space + SkipSpace(s)
  {
    if s != [] && IsSpace(s[0]) {
      var more := SpaceBefore(s[1..]);
      space := [s[0]] + more;
    } else {
      space := [];
    }
  }

  lemma StringIsLiteral(s: Bytes) returns (lead: Space, b: Body)
    requires StringValue(s).Some?
    ensures s == lead + (Quoted(b) + StringValue(s).value.1) && BodyValue(b) == StringValue(s).value.0
  {
    hide SkipSpace, ReadBody, IsBody, BodyValue;
    lead := SpaceBefore(s);
    var v := SkipSpace(s);
    b := BodyOfRead(v[1..]);
    assert v == "\"" + v[1..];
    RegroupQuoted(b, StringValue(s).value.1);
  }

  lemma RegroupQuoted(b: Bytes, rest: Bytes)
    ensures "\"" + (b + ("\"" + rest)) == Quoted(b) + rest
  {
  }

  lemma PairIsMember(s: Bytes) returns (m: Member)
    requires PairAt(s).Some?
    ensures Core(m.value).Str? && s == PrintMember(m) + PairAt(s).value.1
    ensures PairAt(s).value.0 == (BodyValue(m.key), BodyValue(Core(m.value).body))
  {
    hide SkipSpace, StringValue, IsBody, BodyValue, Quoted;
    var lead, key := StringIsLiteral(s);
    var behindKey := StringValue(s).value.1;
    var trail := SpaceBefore(behindKey);
    var colon := SkipSpace(behindKey);
    assert colon == ":" + colon[1..];
    var before, body := StringIsLiteral(colon[1..]);
    var behindValue := StringValue(colon[1..]).value.1;
    var after := SpaceBefore(behindValue);
    m := Member(key, Padded(before, Str(body), after), lead, trail);
    PrintPadded(m.value);
    StringText(Str(body));
    RegroupRead(lead, Quoted(key), trail, before, Quoted(body), after, SkipSpace(behindValue));
  }

  lemma RegroupRead(l: Bytes, k: Bytes, t: Bytes, b: Bytes, v: Bytes, a: Bytes, rest: Bytes)
    ensures l + (k + (t + (":" + (b + (v + (a + rest)))))) == (l + k + t) + ":" + (b + v + a) + rest
  {
  }

  /** What the pair loop takes: string members, and then a brace, or nothing more behind a comma. */
  lemma {:induction false} PairsAreMembers(s: Bytes) returns (members: seq<Member>, end: Bytes)
    requires PairsFrom(s).Some?
    ensures AllStrings(members) && PairsFrom(s).value == StringPairs(members)
    ensures s == PrintMembers(members) + end && (members == [] ==> s == [])
    ensures s != [] ==> end != [] && (end[0] == '}' || end == ",")
    decreases |s|
  {
    hide PairAt, PrintMember, Core, BodyValue, IsBody;
    if s == [] {
      members, end := [], [];
    } else {
      var m := PairIsMember(s);
      var rest := PairAt(s).value.1;
      if rest[0] == ',' && rest[1..] != [] {
        var more;
        more, end := PairsAreMembers(rest[1..]);
        members := [m] + more;
        PrintMembersConcat([m], more);
        PrintOneMember(m);
        assert rest == "," + rest[1..];
        RegroupPairs(PrintMember(m), PrintMembers(more), end);
        assert StringPairs(members) == [PairAt(s).value.0] + StringPairs(more);
      } else {
        members, end := [m], rest;
        PrintOneMember(m);
        assert rest[0] == ',' ==> rest == "," && PairsFrom(rest[1..]) == Some([]);
        assert StringPairs(members) == [PairAt(s).value.0];
      }
    }
  }

  lemma RegroupPairs(m: Bytes, p: Bytes, end: Bytes)
    ensures m + ("," + (p + end)) == m + "," + p + end
  {
  }

  /** Whatever is taken for an object of strings starts with one, and gives its pairs. */
  lemma AcceptedIsObject(raw: Bytes) returns (members: seq<Member>, gap: Space, rest: Bytes)
    requires PairsOf(raw).Some?
    ensures AllStrings(members) && PairsOf(raw).value == StringPairs(members)
    ensures raw == Print(Obj(members, gap)) + rest && (rest == [] || rest[|rest| - 1] == '}')
  {
    hide PairsFrom, SkipSpace, StringPairs, PrintMembers, AllStrings, Print;
    gap := SpaceBefore(raw[1..]);
    var s := SkipSpace(raw[1..]);
    var end;
    BraceIsLeft(raw, gap, s);
    if s[0] == '}' {
      members, end := [], s;
      NoPairs();
      NoMembers();
      assert s == [] + s;
    } else {
      members, end := PairsAreMembers(s);
      LastByte(s, PrintMembers(members), end);
    }
    rest := end[1..];
    ObjectFrom(raw, gap, members, end);
    LastByte(raw, Print(Obj(members, gap)), rest);
  }

  lemma ObjectFrom(raw: Bytes, gap: Space, members: seq<Member>, end: Bytes)
    requires raw != [] && raw[0] == '{' && end != [] && end[0] == '}' && raw[1..] == gap + (PrintMembers(members) + end)
    ensures raw == Print(Obj(members, gap)) + end[1..]
  {
    hide PrintMembers;
    assert raw == "{" + raw[1..] && end == "}" + end[1..];
    RegroupObject(gap, PrintMembers(members), end[1..]);
  }

  lemma BraceIsLeft(raw: Bytes, gap: Space, s: Bytes)
    requires |raw| >= 2 && raw[|raw| - 1] == '}' && raw[1..] == gap + s
    ensures s != [] && s[|s| - 1] == '}'
  {
    assert raw[1..][|raw| - 2] == '}';
    assert gap != [] ==> IsSpace(gap[|gap| - 1]);
  }

  lemma LastByte(all: Bytes, a: Bytes, b: Bytes)
    requires all == a + b
    ensures b != [] ==> all != [] && all[|all| - 1] == b[|b| - 1]
  {
  }

  lemma RegroupObject(gap: Bytes, p: Bytes, rest: Bytes)
    ensures "{" + (gap + (p + ("}" + rest))) == "{" + (gap + p) + "}" + rest
  {
  }

  /** Without the key there is no object, whatever the rest of the parameters holds. */
  lemma NoStringObject(t: Json, key: Key, after: Bytes)
    requires Quiet(t, key) && Lacks(after, '\"')
    ensures StringObjectOf(Print(t) + after, key) == None
  {
    hide FieldOf, Print, PairsOf;
    QuietHasNoField(t, key, after);
  }

  lemma NotBraced(t: Json)
    requires !t.Padded? && !t.Obj? && !t.Str?
    ensures Print(t) != [] && Print(t)[0] != '{'
  {
    if !t.Arr? { LeafBytes(t); }
  }

  /**
   * Under the key nothing but an object is taken for one, with one exception: a string is
   * decoded first, and then taken for the object whose text it holds.
   */
  lemma OnlyObjects(before: seq<Member>, lead: Space, key: Key, trail: Space, value: Json, behind: seq<Member>,
                    after: Bytes)
    requires QuietMembers(before, key) && !Core(value).Obj?
    ensures StringObjectOf(Print(Obj(before + [Member(Plain(key), value, lead, trail)] + behind)) + after, key)
            == if Core(value).Str? then PairsOf(BodyValue(Core(value).body)) else None
  {
    hide FieldOf, Print, PairsFrom, IsBody;
    FieldOfMember(before, lead, key, trail, value, behind, after);
    if !Core(value).Str? { NotBraced(Core(value)); }
  }
}
