/**
 * The lines of the agent protocol: how the client prints a request, how the server receives
 * and parses it, and how a reply is printed and read (src/agent_rpc.cpp:99-104, 146, 187, 220).
 */
module AgentWire {
  import opened Text
  import opened JsonText
  import opened JsonField
  import opened JsonTree
  import opened JsonFieldLaws

  // ----- Requests -----

  datatype AgentRequest = AgentRequest(id: Bytes, requestMethod: Bytes, paramsJson: Bytes)

  function RequestJson(id: Bytes, name: Bytes, params: Bytes): Bytes {
    "{\"version\":1,\"id\":" + JsonString(id) + ",\"method\":" + JsonString(name) + ",\"params\":" + params + "}\n"
  }

  function ParsedRequest(line: Bytes): Option<AgentRequest> {
    match (FieldOf(line, "id"), FieldOf(line, "method"))
    case (Some(id), Some(name)) =>
      (match FieldOf(line, "params")
       case Some(params) => Some(AgentRequest(id, name, params))
       case None => Some(AgentRequest(id, name, "{}")))
    case _ => None
  }

  method ParseRequest(line: Bytes) returns (r: Option<AgentRequest>)
    ensures r == ParsedRequest(line)
  {
    hide FieldOf;
    var id := Field(line, "id");
    var name := Field(line, "method");
    if id.None? || name.None? { return None; }
    var request := AgentRequest(id.value, name.value, "{}");
    var params := Field(line, "params");
    if params.Some? { request := request.(paramsJson := params.value); }
    r := Some(request);
  }

  /** The member names of requests and replies. */
  datatype Names = Names(version: Key, id: Key, name: Key, params: Key, ok: Key, result: Key)

  predicate Standard(n: Names) {
    n.version == "version" && n.id == "id" && n.name == "method" && n.params == "params" && n.ok == "ok" &&
    n.result == "result"
  }

  lemma StandardNames() returns (n: Names)
    ensures Standard(n)
  {
    n := Names("version", "id", "method", "params", "ok", "result");
  }

  lemma NamesDiffer(n: Names)
    requires Standard(n)
    ensures n.version !in {n.id, n.name, n.params, n.result} && n.id !in {n.name, n.params, n.result}
    ensures n.name != n.params && n.ok != n.result
  {
    assert |n.version| == 7 && |n.id| == 2 && |n.name| == 6 && |n.params| == 6 && |n.ok| == 2 && |n.result| == 6;
    assert n.name[0] == 'm' && n.params[0] == 'p';
  }

  function Version(n: Names): Member { Member(Plain(n.version), Number("1")) }

  function StringMember(key: Key, v: Bytes): Member { Member(Plain(key), Str(Encoded(v))) }

  function Name(key: Key): Bytes { KeyText([], Plain(key), []) }

  lemma PlainName(key: Key)
    ensures Name(key) == "\"" + key + "\""
  {
    hide IsBody;
    assert [] + Quoted(key) + [] == Quoted(key);
  }

  lemma RequestHead(n: Names)
    requires Standard(n)
    ensures "{\"version\":1,\"id\":" == PrintBefore([Version(n)]) + Name(n.id) + ":"
  {
    hide Name, KeyText, PrintMembers, PrintMember;
    PlainName(n.id);
    PrintOneMember(Version(n));
    VersionText(n);
  }

  lemma VersionText(n: Names)
    requires Standard(n)
    ensures PrintMember(Version(n)) == "\"version\":1"
  {
    hide KeyText;
    PlainName(n.version);
  }

  lemma RequestMiddle(n: Names)
    requires Standard(n)
    ensures ",\"method\":" == "," + Name(n.name) + ":" && ",\"params\":" == "," + Name(n.params) + ":"
  {
    hide Name;
    PlainName(n.name);
    PlainName(n.params);
  }

  lemma StringMemberText(key: Key, v: Bytes)
    ensures PrintMember(StringMember(key, v)) == Name(key) + ":" + JsonString(v)
  {
    hide Escape, IsBody;
  }

  // ----- Reading a request, whatever stands for its parameters -----

  /** A request up to its parameters, and then any text. */
  function RequestWith(id: Bytes, name: Bytes, x: Bytes): Bytes {
    "{\"version\":1,\"id\":" + JsonString(id) + ",\"method\":" + JsonString(name) + ",\"params\":" + x
  }

  lemma RequestIsWith(id: Bytes, name: Bytes, params: Bytes)
    ensures RequestJson(id, name, params) == RequestWith(id, name, params + "}\n")
  {
    Trail("{\"version\":1,\"id\":" + JsonString(id) + ",\"method\":" + JsonString(name) + ",\"params\":",
          params, "}\n");
  }

  lemma Trail(head: Bytes, x: Bytes, end: Bytes)
    ensures head + x + end == head + (x + end)
  {
  }

  /** The same text cut before each of its three values. */
  lemma RequestCuts(n: Names, id: Bytes, name: Bytes, x: Bytes)
    requires Standard(n)
    ensures var text, b := RequestWith(id, name, x), PrintBefore([Version(n)]);
            var i, m := PrintMember(StringMember(n.id, id)), PrintMember(StringMember(n.name, name));
            && text == b + Name(n.id) + ":" + (JsonString(id) + ("," + m + "," + Name(n.params) + ":" + x))
            && text == b + i + ("," + Name(n.name)) + ":" + (JsonString(name) + ("," + Name(n.params) + ":" + x))
            && text == b + i + "," + m + ("," + Name(n.params)) + ":" + x
  {
    hide PrintBefore, Name, JsonString, PrintMember, StringMember, Version;
    RequestHead(n);
    RequestMiddle(n);
    StringMemberText(n.id, id);
    StringMemberText(n.name, name);
    RegroupRequest(PrintBefore([Version(n)]), Name(n.id), JsonString(id), Name(n.name), JsonString(name),
                   Name(n.params), x);
  }

  lemma RegroupRequest(b: Bytes, k: Bytes, i: Bytes, m: Bytes, n: Bytes, p: Bytes, x: Bytes)
    ensures var text := (b + k + ":") + i + ("," + m + ":") + n + ("," + p + ":") + x;
            && text == b + k + ":" + (i + ("," + (m + ":" + n) + "," + p + ":" + x))
            && text == b + (k + ":" + i) + ("," + m) + ":" + (n + ("," + p + ":" + x))
            && text == b + (k + ":" + i) + "," + (m + ":" + n) + ("," + p) + ":" + x
  {
  }

  lemma ValueAtString(v: Bytes, rest: Bytes)
    ensures ValueAt(JsonString(v) + rest) == Some(v)
  {
    hide Escape, ReadString, ScanLength;
    NoSpaceToSkip(JsonString(v) + rest);
    ReadPrintedLiteral(v, rest);
  }

  /** A text without quotes that is not the key does not mention it. */
  lemma NoMention(v: Bytes, key: Bytes)
    requires Lacks(v, '\"') && v != key
    ensures !Mentions(v, key)
  {
    if |v| > |key| {
      assert v[|v| - |key| - 1..][0] == v[|v| - |key| - 1];
    }
  }

  lemma QuietMember(m: Member, key: Key)
    requires !Closes(m.key, key) && Quiet(m.value, key)
    ensures QuietMembers([m], key)
  {
    hide Closes;
    assert [m][1..] == [];
  }

  lemma {:induction false} QuietConcat(a: seq<Member>, b: seq<Member>, key: Key)
    requires QuietMembers(a, key) && QuietMembers(b, key)
    ensures QuietMembers(a + b, key)
  {
    hide Mentions;
    if a == [] {
      assert a + b == b;
    } else {
      assert (a + b)[1..] == a[1..] + b;
      QuietConcat(a[1..], b, key);
    }
  }

  lemma QuietVersion(n: Names, key: Key)
    requires key != n.version
    ensures QuietMembers([Version(n)], key)
  {
    hide Closes;
    OtherName(n.version, key);
    QuietMember(Version(n), key);
  }

  /** The literal of one key does not end with another one in quotes. */
  lemma OtherName(name: Key, key: Key)
    requires name != key
    ensures !Closes(Plain(name), key)
  {
    hide Closes, Mentions, Escape, IsBody;
    EscapeKey(name);
    ClosesText(name, key);
    KeyHasNoQuote(name);
    NoMention(name, key);
  }

  lemma KeyHasNoQuote(key: Key)
    ensures Lacks(key, '\"')
  {
    assert forall i :: 0 <= i < |key| ==> IsPlainByte(key[i]);
  }

  lemma QuietString(before: seq<Member>, name: Key, v: Bytes, key: Key)
    requires QuietMembers(before, key) && name != key && !Mentions(v, key)
    ensures QuietMembers(before + [StringMember(name, v)], key)
  {
    hide Mentions, Closes;
    OtherName(name, key);
    ClosesText(v, key);
    QuietMember(StringMember(name, v), key);
    QuietConcat(before, [StringMember(name, v)], key);
  }

  /** A string that mentions the key sends the lookup behind the next colon. */
  lemma FieldAtMentioned(before: seq<Member>, name: Key, v: Bytes, next: Bytes, rest: Bytes, key: Key)
    requires QuietMembers(before, key) && name != key && Mentions(v, key)
    requires forall i :: 0 <= i < |next| ==> next[i] != ':'
    ensures FieldOf(PrintBefore(before) + PrintMember(StringMember(name, v)) + next + ":" + rest, key) == ValueAt(rest)
  {
    hide Mentions, Closes, FieldOf, ValueAt, PrintBefore, PrintMember, QuietMembers;
    OtherName(name, key);
    ClosesText(v, key);
    FieldAtMention(before, Plain(name), Encoded(v), next, rest, key);
  }

  /** The id comes back for every id, method name and parameter text. */
  lemma RequestId(id: Bytes, name: Bytes, x: Bytes)
    ensures FieldOf(RequestWith(id, name, x), "id") == Some(id)
  {
    hide FieldOf, ValueAt, PrintBefore, KeyText, JsonString, PrintMember, QuietMembers, RequestWith;
    hide StringMember, Version;
    var n := StandardNames();
    NamesDiffer(n);
    var rest := "," + PrintMember(StringMember(n.name, name)) + "," + Name(n.params) + ":" + x;
    RequestCuts(n, id, name, x);
    QuietVersion(n, n.id);
    FieldAtKey([Version(n)], [], n.id, [], JsonString(id) + rest);
    ValueAtString(id, rest);
  }

  lemma NoColon(key: Key)
    requires key == "method" || key == "params" || key == "ok"
    ensures forall i :: 0 <= i < |"," + Name(key)| ==> ("," + Name(key))[i] != ':'
  {
    hide Name;
    PlainName(key);
  }

  lemma RequestMethodBehind(n: Names, id: Bytes, name: Bytes, x: Bytes, key: Key)
    requires Standard(n) && (key == n.name || key == n.params) && Mentions(id, key)
    ensures FieldOf(RequestWith(id, name, x), key) == Some(name)
  {
    hide FieldOf, ValueAt, PrintBefore, Name, JsonString, PrintMember, QuietMembers, RequestWith, Mentions;
    hide StringMember, Version;
    NamesDiffer(n);
    var rest := "," + Name(n.params) + ":" + x;
    RequestCuts(n, id, name, x);
    QuietVersion(n, key);
    NoColon(n.name);
    FieldAtMentioned([Version(n)], n.id, id, "," + Name(n.name), JsonString(name) + rest, key);
    ValueAtString(name, rest);
  }

  lemma RequestMethodAt(n: Names, id: Bytes, name: Bytes, x: Bytes)
    requires Standard(n) && !Mentions(id, n.name)
    ensures FieldOf(RequestWith(id, name, x), n.name) == Some(name)
  {
    hide FieldOf, ValueAt, PrintBefore, KeyText, JsonString, PrintMember, QuietMembers, RequestWith, Mentions;
    hide StringMember, Version;
    NamesDiffer(n);
    var i := StringMember(n.id, id);
    var before, rest := [Version(n)] + [i], "," + Name(n.params) + ":" + x;
    RequestCuts(n, id, name, x);
    QuietVersion(n, n.name);
    QuietString([Version(n)], n.id, id, n.name);
    PrintBeforeMore([Version(n)], i);
    FieldAtKey(before, [], n.name, [], JsonString(name) + rest);
    ValueAtString(name, rest);
    RegroupComma(PrintBefore([Version(n)]) + PrintMember(i), Name(n.name));
  }

  /** So does the method name: an id that mentions "method" only moves the search to its own end. */
  lemma RequestMethod(id: Bytes, name: Bytes, x: Bytes)
    ensures FieldOf(RequestWith(id, name, x), "method") == Some(name)
  {
    hide FieldOf, RequestWith, Mentions;
    var n := StandardNames();
    if Mentions(id, n.name) {
      RequestMethodBehind(n, id, name, x, n.name);
    } else {
      RequestMethodAt(n, id, name, x);
    }
  }

  lemma RequestParamsAt(n: Names, id: Bytes, name: Bytes, x: Bytes)
    requires Standard(n) && !Mentions(id, n.params)
    ensures FieldOf(RequestWith(id, name, x), n.params) == ValueAt(x)
  {
    hide FieldOf, ValueAt, PrintBefore, KeyText, JsonString, PrintMember, QuietMembers, RequestWith, Mentions;
    hide StringMember, Version;
    NamesDiffer(n);
    var i, m := StringMember(n.id, id), StringMember(n.name, name);
    var before := [Version(n)] + [i];
    RequestCuts(n, id, name, x);
    QuietVersion(n, n.params);
    QuietString([Version(n)], n.id, id, n.params);
    PrintBeforeMore([Version(n)], i);
    if Mentions(name, n.params) {
      NoColon(n.params);
      FieldAtMentioned(before, n.name, name, "," + Name(n.params), x, n.params);
    } else {
      QuietString(before, n.name, name, n.params);
      PrintBeforeMore(before, m);
      FieldAtKey(before + [m], [], n.params, [], x);
      RegroupComma(PrintBefore(before) + PrintMember(m), Name(n.params));
    }
  }

  /**
   * The parameters are whatever value the text behind their key starts with, unless the id
   * mentions "params": then they are the method name.
   */
  lemma RequestParams(id: Bytes, name: Bytes, x: Bytes)
    ensures FieldOf(RequestWith(id, name, x), "params") == if Mentions(id, "params") then Some(name) else ValueAt(x)
  {
    hide FieldOf, RequestWith, Mentions, ValueAt;
    var n := StandardNames();
    if Mentions(id, n.params) {
      RequestMethodBehind(n, id, name, x, n.params);
    } else {
      RequestParamsAt(n, id, name, x);
    }
  }

  lemma RegroupComma(a: Bytes, k: Bytes)
    ensures a + "," + k == a + ("," + k)
  {
  }

  /** What the server takes for parameters when `x` stands behind their key. */
  function ParamsRead(id: Bytes, name: Bytes, x: Bytes): Bytes {
    if Mentions(id, "params") then name
    else
      match ValueAt(x)
      case None => "{}"
      case Some(v) => v
  }

  /** Every such line is accepted, with the id and the method that it was printed from. */
  lemma ParsedWith(id: Bytes, name: Bytes, x: Bytes)
    ensures ParsedRequest(RequestWith(id, name, x)) == Some(AgentRequest(id, name, ParamsRead(id, name, x)))
  {
    hide FieldOf, ValueAt, RequestWith, Mentions;
    RequestId(id, name, x);
    RequestMethod(id, name, x);
    RequestParams(id, name, x);
  }

  // ----- Requests with well-formed parameters -----

  function RequestTree(n: Names, id: Bytes, name: Bytes, params: Json): Json {
    Obj([Version(n)] + [StringMember(n.id, id)] + [StringMember(n.name, name)] + [Member(Plain(n.params), params)] + [])
  }

  /** A request line is the printed tree of its four members. */
  lemma RequestIsPrintedTree(n: Names, id: Bytes, name: Bytes, params: Json)
    requires Standard(n)
    ensures RequestJson(id, name, Print(params)) == Print(RequestTree(n, id, name, params)) + "\n"
  {
    hide KeyText, JsonString, Print, PrintMembers, PrintBefore, RequestJson, RequestWith, StringMember, Version;
    var v, i, m := [Version(n)], StringMember(n.id, id), StringMember(n.name, name);
    RequestIsWith(id, name, Print(params));
    RequestCuts(n, id, name, Print(params) + "}\n");
    PrintBeforeMore(v, i);
    PrintBeforeMore(v + [i], m);
    PrintObject(v + [i] + [m], Member(Plain(n.params), params), []);
    NothingBehind();
    RegroupLast(PrintBefore(v + [i]) + PrintMember(m), Name(n.params), Print(params));
  }

  lemma NothingBehind()
    ensures PrintBehind([]) == "}"
  {
  }

  lemma RegroupLast(a: Bytes, k: Bytes, p: Bytes)
    ensures a + ("," + k) + ":" + (p + "}\n") == a + "," + (k + ":" + p) + "}" + "\n"
  {
  }

  lemma ValueOfTree(params: Json, end: Bytes)
    ensures ValueAt(Print(params) + ("}" + end)) == Some(FieldValue(params))
  {
    hide ValueAt, FieldValue, Print;
    ValueAtTree(params, "}" + end);
  }

  /**
   * `parse_request` on what `request_json` printed: the id and the method come back, always,
   * and the parameters, for every JSON text with white space anywhere, exactly when the id
   * does not mention "params" (or the method name happens to be the parameter text).
   */
  lemma RequestRoundTrip(id: Bytes, name: Bytes, params: Json)
    ensures ParsedRequest(RequestJson(id, name, Print(params)))
            == Some(AgentRequest(id, name, if Mentions(id, "params") then name else FieldValue(params)))
    ensures ParsedRequest(RequestJson(id, name, Print(params))) == Some(AgentRequest(id, name, FieldValue(params))) <==>
            !Mentions(id, "params") || name == FieldValue(params)
  {
    hide ParsedRequest, ValueAt, Print, FieldValue, Mentions, RequestJson, RequestWith;
    RequestIsWith(id, name, Print(params));
    ParsedWith(id, name, Print(params) + "}\n");
    ValueOfTree(params, "\n");
    assert "}" + "\n" == "}\n";
  }

  // ----- The line the server reads -----

  const MAX_LINE := 1024 * 1024

  /** The bytes before the first newline, or all of them. */
  function LineOf(input: Bytes): Bytes {
    if input == [] || input[0] == '\n' then [] else [input[0]] + LineOf(input[1..])
  }

  /** The receive loop: one byte at a time, refusing the byte that would make the line too long. */
  method ReceiveLine(input: Bytes) returns (line: Bytes, tooLarge: bool)
    ensures tooLarge <==> |LineOf(input)| > MAX_LINE
    ensures !tooLarge ==> line == LineOf(input)
  {
    line, tooLarge := [], false;
    var i := 0;
    while i < |input| && input[i] != '\n'
      invariant i <= |input| && |line| <= MAX_LINE
      invariant LineOf(input) == line + LineOf(input[i..])
    {
      assert input[i..][1..] == input[i + 1..];
      assert LineOf(input[i..]) == [input[i]] + LineOf(input[i + 1..]);
      if |line| >= MAX_LINE { return line, true; }
      assert line + ([input[i]] + LineOf(input[i + 1..])) == line + [input[i]] + LineOf(input[i + 1..]);
      line := line + [input[i]];
      i := i + 1;
    }
    assert LineOf(input[i..]) == [];
  }

  lemma {:induction false} LineOfHead(head: Bytes, rest: Bytes)
    requires Lacks(head, '\n')
    ensures LineOf(head + rest) == head + LineOf(rest)
  {
    if head == [] {
      assert head + rest == rest;
    } else {
      assert (head + rest)[1..] == head[1..] + rest;
      LineOfHead(head[1..], rest);
      assert head == [head[0]] + head[1..];
    }
  }

  lemma {:induction false} LineEnds(s: Bytes, more: Bytes)
    requires !Lacks(s, '\n')
    ensures LineOf(s + more) == LineOf(s)
  {
    assert (s + more)[0] == s[0];
    if s[0] != '\n' {
      assert (s + more)[1..] == s[1..] + more;
      var i :| 0 <= i < |s| && s[i] == '\n';
      assert s[1..][i - 1] == '\n';
      LineEnds(s[1..], more);
    }
  }

  lemma {:induction false} EscapeLacksNewline(v: Bytes)
    ensures Lacks(Escape(v), '\n')
  {
    if v == [] {
    } else {
      EscapeLacksNewline(v[1..]);
      assert Lacks(EscapeByte(v[0]), '\n');
      LacksConcat(EscapeByte(v[0]), Escape(v[1..]), '\n');
    }
  }

  lemma LiteralLacksNewline(v: Bytes)
    ensures Lacks(JsonString(v), '\n')
  {
    hide Escape;
    EscapeLacksNewline(v);
    LacksConcat("\"" + Escape(v), "\"", '\n');
    LacksConcat("\"", Escape(v), '\n');
  }

  /** The line of a request ends with the first newline of its parameters, or behind the request. */
  lemma LineOfRequest(id: Bytes, name: Bytes, x: Bytes)
    ensures LineOf(RequestWith(id, name, x)) == RequestWith(id, name, LineOf(x))
  {
    hide JsonString, LineOf;
    var a: Bytes, b: Bytes, c: Bytes := "{\"version\":1,\"id\":", ",\"method\":", ",\"params\":";
    assert Lacks(a, '\n') && Lacks(b, '\n') && Lacks(c, '\n');
    hide Lacks;
    LiteralLacksNewline(id);
    LiteralLacksNewline(name);
    LacksConcat(a, JsonString(id), '\n');
    LacksConcat(a + JsonString(id), b, '\n');
    LacksConcat(a + JsonString(id) + b, JsonString(name), '\n');
    LacksConcat(a + JsonString(id) + b + JsonString(name), c, '\n');
    LineOfHead(a + JsonString(id) + b + JsonString(name) + c, x);
  }

  datatype Served = TooLarge | Invalid | Accepted(request: AgentRequest)

  /** What the server makes of the bytes of one connection. */
  function ServedRequest(input: Bytes): Served {
    if |LineOf(input)| > MAX_LINE then TooLarge
    else
      match ParsedRequest(LineOf(input))
      case None => Invalid
      case Some(r) => Accepted(r)
  }

  method Serve(input: Bytes) returns (r: Served)
    ensures r == ServedRequest(input)
  {
    hide ParsedRequest;
    var line, tooLarge := ReceiveLine(input);
    if tooLarge { return TooLarge; }
    var request := ParseRequest(line);
    r := if request.None? then Invalid else Accepted(request.value);
  }

  /**
   * From the client's request text, for every id, method and parameter text, and whatever
   * else is on the wire behind it: the server refuses a line over 1 MiB, and else accepts
   * the id and the method as printed. Of the parameters it sees what stands before their
   * first newline.
   */
  lemma RequestOverTheWire(id: Bytes, name: Bytes, params: Bytes, more: Bytes)
    ensures var x := LineOf(params + "}\n");
            ServedRequest(RequestJson(id, name, params) + more)
            == if |RequestWith(id, name, x)| > MAX_LINE then TooLarge
               else Accepted(AgentRequest(id, name, ParamsRead(id, name, x)))
  {
    hide ParsedRequest, RequestJson, RequestWith, ParamsRead, LineOf;
    var end := params + "}\n";
    RequestIsWith(id, name, params);
    assert end[|end| - 1] == '\n';
    WithMore(id, name, end, more);
    LineOfRequest(id, name, end + more);
    LineEnds(end, more);
    ParsedWith(id, name, LineOf(end));
  }

  lemma WithMore(id: Bytes, name: Bytes, x: Bytes, more: Bytes)
    ensures RequestWith(id, name, x) + more == RequestWith(id, name, x + more)
  {
    hide JsonString;
    Trail("{\"version\":1,\"id\":" + JsonString(id) + ",\"method\":" + JsonString(name) + ",\"params\":", x, more);
  }

  /** Well-formed parameters on one line arrive as they were sent, unless the id mentions "params". */
  lemma TreeOverTheWire(id: Bytes, name: Bytes, params: Json, more: Bytes)
    requires Lacks(Print(params), '\n')
    ensures var text := RequestJson(id, name, Print(params));
            ServedRequest(text + more)
            == if |text| - 1 > MAX_LINE then TooLarge
               else Accepted(AgentRequest(id, name, if Mentions(id, "params") then name else FieldValue(params)))
  {
    hide ServedRequest, RequestJson, RequestWith, ValueAt, Mentions, LineOf, Lacks, Print, FieldValue;
    var p := Print(params);
    RequestOverTheWire(id, name, p, more);
    LineOfHead(p, "}\n");
    LineOfEnd();
    ValueOfTree(params, []);
    assert p + ("}" + []) == p + "}";
    RequestIsWith(id, name, p);
    assert p + "}\n" == p + "}" + "\n";
    WithMore(id, name, p + "}", "\n");
  }

  lemma LineOfEnd()
    ensures LineOf("}\n") == "}"
  {
    var s: Bytes := "}\n";
    assert s[1..] == "\n";
  }

  /** The side condition is needed: an id "params" makes the server take the method for parameters. */
  lemma HijackedParams()
    ensures ServedRequest(RequestJson("params", "browser.tabs", "{}"))
            == Accepted(AgentRequest("params", "browser.tabs", "browser.tabs"))
  {
    hide ServedRequest, RequestJson;
    assert Print(Obj([])) == "{}";
    TreeOverTheWire("params", "browser.tabs", Obj([]), []);
    ShortRequest("params", "browser.tabs", "{}");
    assert RequestJson("params", "browser.tabs", "{}") + [] == RequestJson("params", "browser.tabs", "{}");
  }

  /** So is the line: parameters typed over two lines arrive as their first line. */
  lemma CutParams()
    ensures ServedRequest(RequestJson("1", "m", "[\n]")) == Accepted(AgentRequest("1", "m", "["))
  {
    hide ServedRequest, RequestJson, RequestWith;
    RequestOverTheWire("1", "m", "[\n]", []);
    assert RequestJson("1", "m", "[\n]") + [] == RequestJson("1", "m", "[\n]");
    CutLine();
    NoMention("1", "params");
    ShortLine("1", "m", "[");
  }

  lemma CutLine()
    ensures LineOf("[\n]" + "}\n") == "[" && ValueAt("[") == Some("[")
  {
    var s: Bytes := "[\n]" + "}\n";
    assert s[1..][0] == '\n';
    var t: Bytes := "[";
    assert t[1..] == [];
    assert t[..1] == t;
  }

  lemma ShortLine(id: Key, name: Key, x: Bytes)
    requires |id| < 100 && |name| < 100 && |x| < 100
    ensures |RequestWith(id, name, x)| < MAX_LINE
  {
    hide Escape;
    EscapeKey(id);
    EscapeKey(name);
  }

  lemma ShortRequest(id: Key, name: Key, params: Bytes)
    requires |id| < 100 && |name| < 100 && |params| < 90
    ensures |RequestJson(id, name, params)| < MAX_LINE
  {
    hide RequestJson, RequestWith;
    RequestIsWith(id, name, params);
    ShortLine(id, name, params + "}\n");
  }

  // ----- Replies -----

  function AgentOk(id: Bytes, result: Bytes): Bytes {
    "{\"version\":1,\"id\":" + JsonString(id) + ",\"ok\":true,\"result\":" + result + "}"
  }

  function OkMember(n: Names): Member { Member(Plain(n.ok), Bool(true)) }

  lemma OkNames(n: Names)
    requires Standard(n)
    ensures ",\"ok\":" == "," + Name(n.ok) + ":" && ",\"result\":" == "," + Name(n.result) + ":"
  {
    hide Name;
    PlainName(n.ok);
    PlainName(n.result);
  }

  lemma OkLiteral()
    ensures ",\"ok\":true,\"result\":" == ",\"ok\":" + "true" + ",\"result\":"
  {
  }

  lemma OkText(n: Names)
    ensures PrintMember(OkMember(n)) == Name(n.ok) + ":" + "true"
  {
    hide KeyText;
  }

  /** A reply cut before its second and before its last value. */
  lemma ReplyCuts(n: Names, id: Bytes, result: Bytes, more: Bytes)
    requires Standard(n)
    ensures var text, b := AgentOk(id, result) + more, PrintBefore([Version(n)]);
            var i, x := PrintMember(StringMember(n.id, id)), result + ("}" + more);
            && text == b + i + ("," + Name(n.ok)) + ":" + ("true" + ("," + Name(n.result) + ":" + x))
            && text == b + i + "," + PrintMember(OkMember(n)) + "," + Name(n.result) + ":" + x
  {
    hide PrintBefore, Name, JsonString, PrintMember, StringMember, Version, OkMember;
    RequestHead(n);
    OkNames(n);
    OkLiteral();
    OkText(n);
    StringMemberText(n.id, id);
    RegroupReply(PrintBefore([Version(n)]), Name(n.id), JsonString(id), Name(n.ok), Name(n.result), result, more);
  }

  lemma RegroupReply(b: Bytes, k: Bytes, i: Bytes, o: Bytes, r: Bytes, x: Bytes, more: Bytes)
    ensures var text := (b + k + ":") + i + (("," + o + ":") + "true" + ("," + r + ":")) + x + "}" + more;
            && text == b + (k + ":" + i) + ("," + o) + ":" + ("true" + ("," + r + ":" + (x + ("}" + more))))
            && text == b + (k + ":" + i) + "," + (o + ":" + "true") + "," + r + ":" + (x + ("}" + more))
  {
  }

  function ReplyTree(n: Names, id: Bytes, result: Json): Json {
    Obj([Version(n)] + [StringMember(n.id, id)] + [OkMember(n)] + [Member(Plain(n.result), result)] + [])
  }

  lemma ReplyIsPrintedTree(n: Names, id: Bytes, result: Json)
    requires Standard(n)
    ensures AgentOk(id, Print(result)) == Print(ReplyTree(n, id, result))
  {
    hide KeyText, JsonString, Print, PrintMembers, PrintBefore, AgentOk, StringMember, Version, OkMember;
    var v, i, o := [Version(n)], StringMember(n.id, id), OkMember(n);
    ReplyCuts(n, id, Print(result), []);
    PrintBeforeMore(v, i);
    PrintBeforeMore(v + [i], o);
    PrintObject(v + [i] + [o], Member(Plain(n.result), result), []);
    NothingBehind();
    RegroupResult(PrintBefore(v + [i] + [o]), Name(n.result), Print(result));
    assert AgentOk(id, Print(result)) + [] == AgentOk(id, Print(result));
  }

  lemma RegroupResult(a: Bytes, k: Bytes, p: Bytes)
    ensures a + k + ":" + (p + ("}" + [])) == a + (k + ":" + p) + "}"
  {
  }

  lemma ValueAtTrue(rest: Bytes)
    requires rest != [] && rest[0] == ','
    ensures ValueAt("true" + rest) == Some("true")
  {
    hide ValueAt;
    assert Print(Bool(true)) == "true";
    ValueAtTree(Bool(true), rest);
  }

  lemma ReplyMentioned(n: Names, id: Bytes, result: Bytes, more: Bytes)
    requires Standard(n) && Mentions(id, n.result)
    ensures FieldOf(AgentOk(id, result) + more, n.result) == Some("true")
  {
    hide FieldOf, ValueAt, PrintBefore, KeyText, JsonString, PrintMember, QuietMembers, AgentOk, Mentions;
    hide StringMember, Version, OkMember;
    NamesDiffer(n);
    var rest := "," + Name(n.result) + ":" + (result + ("}" + more));
    ReplyCuts(n, id, result, more);
    QuietVersion(n, n.result);
    NoColon(n.ok);
    FieldAtMentioned([Version(n)], n.id, id, "," + Name(n.ok), "true" + rest, n.result);
    assert rest[0] == ',';
    ValueAtTrue(rest);
  }

  lemma ReplyResultAt(n: Names, id: Bytes, result: Bytes, more: Bytes)
    requires Standard(n) && !Mentions(id, n.result)
    ensures FieldOf(AgentOk(id, result) + more, n.result) == ValueAt(result + ("}" + more))
  {
    hide FieldOf, ValueAt, PrintBefore, KeyText, JsonString, PrintMember, QuietMembers, AgentOk, Mentions;
    hide StringMember, Version, OkMember;
    NamesDiffer(n);
    var i, x := StringMember(n.id, id), result + ("}" + more);
    var before := [Version(n)] + [i];
    ReplyCuts(n, id, result, more);
    QuietVersion(n, n.result);
    QuietString([Version(n)], n.id, id, n.result);
    QuietOk(n);
    QuietConcat(before, [OkMember(n)], n.result);
    PrintBeforeMore([Version(n)], i);
    PrintBeforeMore(before, OkMember(n));
    FieldAtKey(before + [OkMember(n)], [], n.result, [], x);
  }

  lemma QuietOk(n: Names)
    requires n.ok != n.result
    ensures QuietMembers([OkMember(n)], n.result)
  {
    hide Closes;
    OtherName(n.ok, n.result);
    QuietMember(OkMember(n), n.result);
  }

  /**
   * The client reads the value the result text starts with, or "true" when the id mentions
   * "result", whatever follows the reply on the wire.
   */
  lemma ReplyResult(id: Bytes, result: Bytes, more: Bytes)
    ensures FieldOf(AgentOk(id, result) + more, "result")
            == if Mentions(id, "result") then Some("true") else ValueAt(result + ("}" + more))
  {
    hide FieldOf, ValueAt, AgentOk, Mentions;
    var n := StandardNames();
    if Mentions(id, n.result) {
      ReplyMentioned(n, id, result, more);
    } else {
      ReplyResultAt(n, id, result, more);
    }
  }

  /**
   * So for every JSON text it gets back the result it was sent, decoded when it is a string,
   * exactly when the id does not mention "result" (or the result reads "true").
   */
  lemma ReplyRoundTrip(id: Bytes, result: Json, more: Bytes)
    ensures FieldOf(AgentOk(id, Print(result)) + more, "result") == Some(FieldValue(result)) <==>
            !Mentions(id, "result") || FieldValue(result) == "true"
  {
    hide FieldOf, ValueAt, Print, FieldValue, AgentOk, Mentions;
    ReplyResult(id, Print(result), more);
    ValueOfTree(result, more);
  }

  /** The id "result" makes the client take "true" for the result. */
  lemma HijackedResult()
    ensures FieldOf(AgentOk("result", "[]"), "result") == Some("true")
  {
    hide FieldOf, AgentOk;
    ReplyResult("result", "[]", []);
    assert AgentOk("result", "[]") + [] == AgentOk("result", "[]");
  }

  /**
   * The command line client prints a result that is not a string byte for byte as the handler
   * wrote it, but for white space around it; the server ends every reply with a newline.
   */
  lemma CliReply(result: Json)
    requires !Core(result).Str?
    ensures FieldOf(AgentOk("cli", Print(result)) + "\n", "result") == Some(Print(Core(result)))
  {
    hide FieldOf, Print, AgentOk, ValueAt;
    NoMention("cli", "result");
    ReplyResult("cli", Print(result), "\n");
    ValueOfTree(result, "\n");
  }
}
