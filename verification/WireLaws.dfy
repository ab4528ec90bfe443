/**
 * When parameters survive the wire, and how the client tells answers from errors
 * (src/agent_rpc.cpp:99-104, 146-147, 220).
 */
module WireLaws {
  import opened Text
  import opened JsonText
  import opened JsonField
  import opened JsonTree
  import opened JsonFieldLaws
  import opened AgentWire

  // ----- Newlines in parameters -----

  lemma {:induction false} LinePrefix(s: Bytes)
    ensures var n := |LineOf(s)|;
            n <= |s| && LineOf(s) == s[..n] && Lacks(s[..n], '\n') && (n < |s| ==> s[n] == '\n')
  {
    if s == [] || s[0] == '\n' {
    } else {
      LinePrefix(s[1..]);
      var n := |LineOf(s[1..])|;
      assert s[..n + 1] == [s[0]] + s[1..][..n];
    }
  }

  lemma LineIsCut(s: Bytes)
    ensures !Lacks(s, '\n') ==> |LineOf(s)| < |s| && s[|LineOf(s)|] == '\n'
    ensures Lacks(s, '\n') ==> LineOf(s) == s
  {
    LinePrefix(s);
    assert s[..|s|] == s;
  }

  lemma SpacePrefix(s: Space, n: nat)
    requires n <= |s|
    ensures AllSpace(s[..n])
  {
  }

  /** A newline behind the value only shortens the white space there. */
  lemma TrailIsHarmless(t: Json)
    requires Lacks(Lead(t) + Print(Core(t)), '\n')
    ensures ValueAt(LineOf(Print(t) + "}\n")) == Some(FieldValue(t))
  {
    hide ValueAt, Print, LineOf, Lacks;
    var lead, trail := Unpad(t);
    var c := Print(Core(t));
    RegroupTrail(lead, c, trail);
    LineOfHead(lead + c, trail + "}\n");
    if Lacks(trail, '\n') {
      LineOfHead(trail, "}\n");
      LineOfEnd();
      ShorterTrail(t, lead, trail, "}");
    } else {
      LineEnds(trail, "}\n");
      LinePrefix(trail);
      SpacePrefix(trail, |LineOf(trail)|);
      ShorterTrail(t, lead, LineOf(trail), []);
      assert LineOf(trail) + [] == LineOf(trail);
    }
  }

  lemma RegroupTrail(l: Bytes, c: Bytes, t: Bytes)
    ensures l + c + t + "}\n" == (l + c) + (t + "}\n")
  {
  }

  lemma ShorterTrail(t: Json, lead: Space, trail: Space, end: Bytes)
    requires end == [] || end == "}"
    ensures ValueAt((lead + Print(Core(t))) + (trail + end)) == Some(FieldValue(t))
  {
    hide ValueAt;
    var u := Padded(lead, Core(t), trail);
    PrintPadded(u);
    hide Print;
    assert (lead + Print(Core(t))) + (trail + end) == Print(u) + end;
    ValueAtTree(u, end);
  }

  /** A newline before the value leaves nothing of it. */
  lemma LeadCutsAll(t: Json)
    requires !Lacks(Lead(t), '\n')
    ensures ValueAt(LineOf(Print(t) + "}\n")) == None
  {
    hide Print, LineOf, Lacks;
    var lead, trail := Unpad(t);
    var rest := Print(Core(t)) + trail + "}\n";
    assert Print(t) + "}\n" == lead + rest;
    LineEnds(lead, rest);
    LinePrefix(lead);
    SpacePrefix(lead, |LineOf(lead)|);
    SkipSpaceOver(LineOf(lead), []);
    assert LineOf(lead) + [] == LineOf(lead);
  }

  lemma {:induction false} NewlineInBody(b: Bytes, k: nat)
    requires IsBody(b) && k < |b| && b[k] == '\n'
    ensures !Lacks(BodyValue(b), '\n')
    decreases |b|
  {
    var unit, n := UnitAt(b).value.0, UnitAt(b).value.1;
    var rest := BodyValue(b[n..]);
    LacksConcat(unit, rest, '\n');
    if k < n {
      NewlineInUnit(b, k);
    } else {
      hide UnitAt;
      NewlineInBody(b[n..], k - n);
    }
  }

  lemma NewlineInUnit(b: Bytes, k: nat)
    requires b != [] && UnitAt(b).Some? && k < UnitAt(b).value.1 && b[k] == '\n'
    ensures !Lacks(UnitAt(b).value.0, '\n')
  {
    hide EncodeUtf8;
    if |b| > 2 { assert forall i :: 0 <= i < |b| - 2 ==> b[2..][i] == b[i + 2]; }
    assert UnitAt(b).value.0[0] == '\n';
  }

  /** A newline inside the value cuts it short. */
  lemma CoreIsCut(t: Json)
    requires Lacks(Lead(t), '\n') && !Lacks(Print(Core(t)), '\n')
    ensures match ValueAt(LineOf(Print(t) + "}\n"))
            case None => FieldValue(t) != "{}"
            case Some(v) => v != FieldValue(t)
  {
    hide Print, LineOf, Lacks, ScanLength, TrimEnd, IsBody, SkipSpace, ReadString;
    var lead, trail := Unpad(t);
    var c := Print(Core(t));
    RegroupCore(lead, c, trail);
    LineOfHead(lead, c + (trail + "}\n"));
    LineEnds(c, trail + "}\n");
    LinePrefix(c);
    LineIsCut(c);
    var cut := LineOf(c);
    PrintShape(Core(t));
    assert |cut| > 0 && cut[0] == c[0];
    SkipSpaceOver(lead, cut);
    NoSpaceToSkip(cut);
    if Core(t).Str? {
      StringText(Core(t));
      CutLiteralFails(Core(t).body, |cut|);
      NewlineInLiteral(Core(t).body);
    }
  }

  lemma RegroupCore(l: Bytes, c: Bytes, t: Bytes)
    ensures l + c + t + "}\n" == l + (c + (t + "}\n"))
  {
  }

  lemma NewlineInLiteral(b: Body)
    requires !Lacks(Quoted(b), '\n')
    ensures BodyValue(b) != "{}"
  {
    hide IsBody, BodyValue;
    var k :| 0 <= k < |Quoted(b)| && Quoted(b)[k] == '\n';
    assert b[k - 1] == '\n';
    NewlineInBody(b, k - 1);
    assert Lacks("{}", '\n');
  }

  /**
   * Well-formed parameters arrive exactly when neither they nor the white space before them
   * contain a newline; a newline behind them is harmless. (With a newline before them the
   * server takes "{}", which is right for that value only.)
   */
  lemma ParamsArriveIff(id: Bytes, name: Bytes, params: Json)
    requires !Mentions(id, "params")
    ensures ParamsRead(id, name, LineOf(Print(params) + "}\n")) == FieldValue(params) <==>
            Lacks(Lead(params) + Print(Core(params)), '\n') ||
            (!Lacks(Lead(params), '\n') && FieldValue(params) == "{}")
  {
    hide ValueAt, Print, LineOf, Lacks, FieldValue, Mentions;
    LacksConcat(Lead(params), Print(Core(params)), '\n');
    if Lacks(Lead(params) + Print(Core(params)), '\n') {
      TrailIsHarmless(params);
    } else if !Lacks(Lead(params), '\n') {
      LeadCutsAll(params);
    } else {
      CoreIsCut(params);
    }
  }

  /** So over the wire, for every request that fits the line. */
  lemma TreeOverTheWireIff(id: Bytes, name: Bytes, params: Json, more: Bytes)
    requires !Mentions(id, "params") && |RequestJson(id, name, Print(params))| - 1 <= MAX_LINE
    ensures ServedRequest(RequestJson(id, name, Print(params)) + more)
              == Accepted(AgentRequest(id, name, FieldValue(params))) <==>
            Lacks(Lead(params) + Print(Core(params)), '\n') ||
            (!Lacks(Lead(params), '\n') && FieldValue(params) == "{}")
  {
    hide ServedRequest, RequestJson, ParamsRead, Print, LineOf, Lacks, FieldValue, Mentions, Lead;
    var p := Print(params);
    RequestOverTheWire(id, name, p, more);
    ParamsArriveIff(id, name, params);
    RequestIsWith(id, name, p);
    LinePrefix(p + "}\n");
    EndIsNewline(p);
    WithLength(id, name, LineOf(p + "}\n"), p + "}\n");
  }

  lemma EndIsNewline(p: Bytes)
    ensures |LineOf(p + "}\n")| < |p + "}\n"|
  {
    hide LineOf;
    var s := p + "}\n";
    assert s[|s| - 1] == '\n';
    LineIsCut(s);
  }

  lemma WithLength(id: Bytes, name: Bytes, x: Bytes, y: Bytes)
    requires |x| < |y|
    ensures |RequestWith(id, name, x)| < |RequestWith(id, name, y)|
  {
    hide JsonString;
  }

  // ----- Requests that any client sends -----

  /** The member called `key` that a lookup finds: no literal before it ends with the quoted key. */
  predicate FirstNamed(members: seq<Member>, i: int, key: Key) {
    0 <= i < |members| && members[i].key == key && QuietMembers(members[..i], key)
  }

  /** Such a member gives the field, wherever it stands in the object. */
  lemma FieldAtIndex(members: seq<Member>, i: int, key: Key, more: Bytes)
    requires FirstNamed(members, i, key)
    ensures FieldOf(Print(Obj(members)) + more, key) == Some(FieldValue(members[i].value))
  {
    hide QuietMembers, FieldOf, FieldValue, Print, IsBody;
    var m := members[i];
    assert members == members[..i] + [Member(Plain(key), m.value, m.lead, m.trail)] + members[i + 1..];
    FieldOfMember(members[..i], m.lead, key, m.trail, m.value, members[i + 1..], more);
  }

  /**
   * A request is any object with an id and a method, members in any order and white space
   * anywhere: it is accepted with their values, and with the params if it has any.
   */
  lemma ParsedObject(n: Names, members: seq<Member>, i: int, m: int, p: int, more: Bytes)
    requires Standard(n)
    requires FirstNamed(members, i, n.id) && FirstNamed(members, m, n.name) && FirstNamed(members, p, n.params)
    ensures ParsedRequest(Print(Obj(members)) + more)
            == Some(AgentRequest(FieldValue(members[i].value), FieldValue(members[m].value),
                                 FieldValue(members[p].value)))
  {
    hide QuietMembers, FieldOf, FieldValue, Print;
    FieldAtIndex(members, i, n.id, more);
    FieldAtIndex(members, m, n.name, more);
    FieldAtIndex(members, p, n.params, more);
  }

  /** The params may be left out; then they are the empty object. */
  lemma ParsedWithoutParams(n: Names, members: seq<Member>, i: int, m: int, more: Bytes)
    requires Standard(n) && Lacks(more, '\"')
    requires FirstNamed(members, i, n.id) && FirstNamed(members, m, n.name) && QuietMembers(members, n.params)
    ensures ParsedRequest(Print(Obj(members)) + more)
            == Some(AgentRequest(FieldValue(members[i].value), FieldValue(members[m].value), "{}"))
  {
    hide QuietMembers, FieldOf, FieldValue, Print, Lacks;
    FieldAtIndex(members, i, n.id, more);
    FieldAtIndex(members, m, n.name, more);
    QuietObject(members, n.params);
    QuietHasNoField(Obj(members), n.params, more);
  }

  lemma QuietObject(members: seq<Member>, key: Key)
    requires QuietMembers(members, key)
    ensures Quiet(Obj(members), key)
  {
  }

  /** A JSON text in which nothing names an id, or nothing names a method, is no request. */
  lemma NamelessIsNoRequest(n: Names, t: Json, more: Bytes)
    requires Standard(n) && Lacks(more, '\"') && (Quiet(t, n.id) || Quiet(t, n.name))
    ensures ParsedRequest(Print(t) + more) == None
  {
    hide FieldOf, Quiet, Print, Lacks;
    if Quiet(t, n.id) {
      QuietHasNoField(t, n.id, more);
    } else {
      QuietHasNoField(t, n.name, more);
    }
  }

  /**
   * One line, whatever follows it: it is too large exactly above 1048576 bytes, and else it is
   * what its own text parses to.
   */
  lemma ServedLine(line: Bytes, more: Bytes)
    requires Lacks(line, '\n')
    ensures ServedRequest(line + "\n" + more)
            == if |line| > 1048576 then TooLarge
               else if ParsedRequest(line).None? then Invalid
               else Accepted(ParsedRequest(line).value)
  {
    hide ParsedRequest, Lacks;
    var end := "\n" + more;
    LineOfHead(line, end);
    assert LineOf(end) == [];
    assert line + end == line + "\n" + more;
    assert line + [] == line;
  }

  /** So the server refuses a JSON text that names no id or no method. */
  lemma NamelessIsInvalid(n: Names, t: Json, more: Bytes)
    requires Standard(n) && (Quiet(t, n.id) || Quiet(t, n.name))
    requires Lacks(Print(t), '\n') && |Print(t)| <= 1048576
    ensures ServedRequest(Print(t) + "\n" + more) == Invalid
  {
    hide ServedRequest, ParsedRequest, Quiet, Print;
    ServedLine(Print(t), more);
    NamelessIsNoRequest(n, t, []);
    assert Print(t) + [] == Print(t);
  }

  /** And accepts an object that names both, with its params, or with "{}" when it names none. */
  lemma NamedIsAccepted(n: Names, members: seq<Member>, i: int, m: int, more: Bytes)
    requires Standard(n) && FirstNamed(members, i, n.id) && FirstNamed(members, m, n.name)
    requires Lacks(Print(Obj(members)), '\n') && |Print(Obj(members))| <= 1048576
    ensures var r := ServedRequest(Print(Obj(members)) + "\n" + more);
            var id, name := FieldValue(members[i].value), FieldValue(members[m].value);
            && (QuietMembers(members, n.params) ==> r == Accepted(AgentRequest(id, name, "{}")))
            && forall p :: FirstNamed(members, p, n.params) ==>
                 r == Accepted(AgentRequest(id, name, FieldValue(members[p].value)))
  {
    hide ServedRequest, ParsedRequest, Print, FieldValue, QuietMembers;
    ServedLine(Print(Obj(members)), more);
    assert Print(Obj(members)) + [] == Print(Obj(members));
    if QuietMembers(members, n.params) { ParsedWithoutParams(n, members, i, m, []); }
    forall p | FirstNamed(members, p, n.params)
      ensures ParsedRequest(Print(Obj(members)))
              == Some(AgentRequest(FieldValue(members[i].value), FieldValue(members[m].value),
                                   FieldValue(members[p].value)))
    {
      ParsedObject(n, members, i, m, p, []);
    }
  }

  // ----- Telling replies from errors -----

  function AgentError(id: Bytes, code: Bytes, message: Bytes): Bytes {
    "{\"version\":1,\"id\":" + JsonString(id) + ErrorRest(code, message)
  }

  function ErrorRest(code: Bytes, message: Bytes): Bytes {
    ",\"ok\":false,\"error\":{\"code\":" + JsonString(code) + ",\"message\":" + JsonString(message) + "}}"
  }

  function OkTrue(): Bytes { "\"ok\":true" }

  /** The test of the command line client: the reply contains `"ok":true` somewhere. */
  predicate LooksOk(reply: Bytes) { Find(reply, OkTrue(), 0).Some? }

  /** A quote behind a 'k' and before ":t", as in the text searched for. */
  predicate TrueAt(b: Bytes, r: int) {
    0 < r < |b| - 2 && b[r] == '\"' && b[r - 1] == 'k' && b[r + 1] == ':' && b[r + 2] == 't'
  }

  ghost predicate NotTrue(b: Bytes) { forall r :: !TrueAt(b, r) }

  /** Every quote is escaped. */
  predicate QuotesEscaped(b: Bytes) {
    forall k :: 0 <= k < |b| && b[k] == '\"' ==> k > 0 && b[k - 1] == '\\'
  }

  lemma BodyIsEscaped(b: Body)
    ensures QuotesEscaped(b)
  {
    hide IsBody;
    forall k | 0 <= k < |b| && b[k] == '\"'
      ensures k > 0 && b[k - 1] == '\\'
    {
      BodyQuotes(b, k);
    }
  }

  lemma NotTrueLiteral(body: Bytes, rest: Bytes)
    requires QuotesEscaped(body) && NotTrue(rest)
    requires |rest| > 1 && rest[0] != '\"' && !(rest[0] == ':' && rest[1] == 't')
    ensures NotTrue(Quoted(body) + rest)
  {
    var s, n := Quoted(body) + rest, |body| + 2;
    forall r
      ensures !TrueAt(s, r)
    {
      if 0 < r < n - 1 && s[r] == '\"' {
        assert body[r - 1] == '\"' && s[r - 1] == body[r - 2];
      } else if r >= n {
        assert !TrueAt(rest, r - n);
      }
    }
  }

  lemma NotTruePlain(p: Bytes, rest: Bytes)
    requires Lacks(p, '\"') && (p != [] ==> p[|p| - 1] != 'k') && NotTrue(rest)
    ensures NotTrue(p + rest)
  {
    forall r
      ensures !TrueAt(p + rest, r)
    {
      assert !TrueAt(rest, r - |p|);
    }
  }

  /** Some bytes between tokens, a literal, and what follows. */
  lemma NotTruePiece(p: Bytes, body: Bytes, rest: Bytes)
    requires Lacks(p, '\"') && p != [] && p[|p| - 1] != 'k' && QuotesEscaped(body) && NotTrue(rest)
    requires |rest| > 1 && rest[0] != '\"' && !(rest[0] == ':' && rest[1] == 't')
    ensures var s := p + (Quoted(body) + rest);
            NotTrue(s) && |s| > 1 && s[0] == p[0] && (|p| > 1 ==> s[1] == p[1]) && (|p| == 1 ==> s[1] == '\"')
  {
    hide NotTrue, QuotesEscaped;
    NotTrueLiteral(body, rest);
    NotTruePlain(p, Quoted(body) + rest);
  }

  /** The member names of an error reply. */
  datatype ErrorNames = ErrorNames(version: Key, id: Key, ok: Key, error: Key, code: Key, message: Key)

  predicate StandardError(n: ErrorNames) {
    n.version == "version" && n.id == "id" && n.ok == "ok" && n.error == "error" && n.code == "code" &&
    n.message == "message"
  }

  predicate NamesEscaped(n: ErrorNames) {
    QuotesEscaped(n.version) && QuotesEscaped(n.id) && QuotesEscaped(n.ok) && QuotesEscaped(n.error) &&
    QuotesEscaped(n.code) && QuotesEscaped(n.message)
  }

  function ErrorFrom(n: ErrorNames, c: Bytes, m: Bytes, end: Bytes): Bytes {
    ":false," + (Quoted(n.error) + (":{" + (Quoted(n.code) + (":" + (Quoted(c) + ("," + (Quoted(n.message) +
      (":" + (Quoted(m) + end)))))))))
  }

  lemma ErrorFromIsNotTrue(n: ErrorNames, c: Bytes, m: Bytes, end: Bytes)
    requires NamesEscaped(n) && QuotesEscaped(c) && QuotesEscaped(m) && NotTrue(end)
    requires |end| > 1 && end[0] == '}'
    ensures var s := ErrorFrom(n, c, m, end); NotTrue(s) && |s| > 1 && s[0] == ':' && s[1] == 'f'
  {
    hide NotTrue, QuotesEscaped, Quoted;
    var s1 := ":" + (Quoted(m) + end);
    NotTruePiece(":", m, end);
    var s2 := "," + (Quoted(n.message) + s1);
    NotTruePiece(",", n.message, s1);
    var s3 := ":" + (Quoted(c) + s2);
    NotTruePiece(":", c, s2);
    var s4 := ":{" + (Quoted(n.code) + s3);
    NotTruePiece(":{", n.code, s3);
    NotTruePiece(":false,", n.error, s4);
  }

  lemma ErrorIsNotTrue(n: ErrorNames, i: Bytes, c: Bytes, m: Bytes, end: Bytes)
    requires NamesEscaped(n) && QuotesEscaped(i) && QuotesEscaped(c) && QuotesEscaped(m) && NotTrue(end)
    requires |end| > 1 && end[0] == '}'
    ensures NotTrue("{" + (Quoted(n.version) + (":1," + (Quoted(n.id) + (":" + (Quoted(i) + ("," + (Quoted(n.ok) +
                      ErrorFrom(n, c, m, end)))))))))
  {
    hide NotTrue, QuotesEscaped, Quoted, ErrorFrom;
    var s0 := ErrorFrom(n, c, m, end);
    ErrorFromIsNotTrue(n, c, m, end);
    var s1 := "," + (Quoted(n.ok) + s0);
    NotTruePiece(",", n.ok, s0);
    var s2 := ":" + (Quoted(i) + s1);
    NotTruePiece(":", i, s1);
    var s3 := ":1," + (Quoted(n.id) + s2);
    NotTruePiece(":1,", n.id, s2);
    NotTruePiece("{", n.version, s3);
  }

  lemma StandardErrorNames() returns (n: ErrorNames)
    ensures StandardError(n)
  {
    n := ErrorNames("version", "id", "ok", "error", "code", "message");
  }

  lemma KeyIsEscaped(key: Key)
    ensures QuotesEscaped(key)
  {
    KeyHasNoQuote(key);
    NoQuotesEscaped(key);
  }

  lemma KeysAreEscaped(n: ErrorNames)
    ensures NamesEscaped(n)
  {
    hide QuotesEscaped;
    KeyIsEscaped(n.version);
    KeyIsEscaped(n.id);
    KeyIsEscaped(n.ok);
    KeyIsEscaped(n.error);
    KeyIsEscaped(n.code);
    KeyIsEscaped(n.message);
  }

  lemma NoQuotesEscaped(b: Bytes)
    ensures Lacks(b, '\"') ==> QuotesEscaped(b)
  {
  }

  lemma ErrorText(n: ErrorNames, id: Bytes, code: Bytes, message: Bytes, more: Bytes)
    requires StandardError(n)
    ensures AgentError(id, code, message) + more
            == "{" + (Quoted(n.version) + (":1," + (Quoted(n.id) + (":" + (JsonString(id) + ("," + (Quoted(n.ok) +
                 ErrorFrom(n, Escape(code), Escape(message), "}}" + more))))))))
  {
    hide Escape;
    var i, c, m := JsonString(id), JsonString(code), JsonString(message);
    ErrorLiterals(n);
    hide Quoted, JsonString;
    RegroupError("{" + Quoted(n.version) + ":1," + Quoted(n.id) + ":", i,
                 "," + Quoted(n.ok) + ":false," + Quoted(n.error) + ":{" + Quoted(n.code) + ":", c,
                 "," + Quoted(n.message) + ":", m, more);
    RegroupPieces(Quoted(n.version), Quoted(n.id), i, Quoted(n.ok), Quoted(n.error), Quoted(n.code), c,
                  Quoted(n.message), m, "}}" + more);
  }

  lemma ErrorLiterals(n: ErrorNames)
    requires StandardError(n)
    ensures "{\"version\":1,\"id\":" == "{" + Quoted(n.version) + ":1," + Quoted(n.id) + ":"
    ensures ",\"ok\":false,\"error\":{\"code\":"
            == "," + Quoted(n.ok) + ":false," + Quoted(n.error) + ":{" + Quoted(n.code) + ":"
    ensures ",\"message\":" == "," + Quoted(n.message) + ":"
  {
    ErrorHead(n);
    ErrorMiddle(n);
    hide Quoted;
  }

  lemma ErrorHead(n: ErrorNames)
    requires StandardError(n)
    ensures "{\"version\":1,\"id\":" == "{" + Quoted(n.version) + ":1," + Quoted(n.id) + ":"
  {
  }

  lemma ErrorMiddle(n: ErrorNames)
    requires StandardError(n)
    ensures ",\"ok\":false,\"error\":{\"code\":"
            == "," + Quoted(n.ok) + ":false," + Quoted(n.error) + ":{" + Quoted(n.code) + ":"
    ensures ",\"message\":" == "," + Quoted(n.message) + ":"
  {
  }

  lemma RegroupError(h: Bytes, i: Bytes, o: Bytes, c: Bytes, t: Bytes, m: Bytes, more: Bytes)
    ensures h + i + (o + c + t + m + "}}") + more == h + (i + (o + (c + (t + (m + ("}}" + more))))))
  {
  }

  lemma RegroupPieces(v: Bytes, k: Bytes, i: Bytes, o: Bytes, e: Bytes, d: Bytes, c: Bytes, t: Bytes, m: Bytes,
                      end: Bytes)
    ensures ("{" + v + ":1," + k + ":")
            + (i + (("," + o + ":false," + e + ":{" + d + ":") + (c + (("," + t + ":") + (m + end)))))
            == "{" + (v + (":1," + (k + (":" + (i + ("," + (o +
                 (":false," + (e + (":{" + (d + (":" + (c + ("," + (t + (":" + (m + end)))))))))))))))))
  {
  }

  lemma NeedleIsTrue(s: Bytes, j: nat)
    requires OccursAt(s, OkTrue(), j)
    ensures TrueAt(s, j + 3)
  {
    var w := s[j..j + 9];
    assert w[2] == 'k' && w[3] == '\"' && w[4] == ':' && w[5] == 't';
  }

  /** No error reply looks like an answer, whatever its id, code and message contain. */
  lemma ErrorsNeverLookOk(id: Bytes, code: Bytes, message: Bytes, more: Bytes)
    requires Lacks(more, '\"')
    ensures !LooksOk(AgentError(id, code, message) + more)
  {
    hide QuotesEscaped, NotTrue, ErrorFrom, AgentError, Escape, IsBody, OkTrue, TrueAt, OccursAt;
    var n := StandardErrorNames();
    KeysAreEscaped(n);
    BodyIsEscaped(Encoded(id));
    BodyIsEscaped(Encoded(code));
    BodyIsEscaped(Encoded(message));
    EndIsNotTrue(more);
    ErrorText(n, id, code, message, more);
    ErrorIsNotTrue(n, Escape(id), Escape(code), Escape(message), "}}" + more);
    NotFound(AgentError(id, code, message) + more);
  }

  lemma EndIsNotTrue(more: Bytes)
    requires Lacks(more, '\"')
    ensures NotTrue("}}" + more)
  {
    assert forall r :: 0 <= r < |"}}" + more| ==> ("}}" + more)[r] != '\"';
  }

  lemma NotFound(s: Bytes)
    requires NotTrue(s)
    ensures !LooksOk(s)
  {
    hide OkTrue, OccursAt, TrueAt;
    FindIsFirst(s, OkTrue(), 0);
    if Find(s, OkTrue(), 0).Some? {
      NeedleIsTrue(s, Find(s, OkTrue(), 0).value);
    }
  }

  /** Every answer does. */
  lemma AnswersLookOk(id: Bytes, result: Bytes, more: Bytes)
    ensures LooksOk(AgentOk(id, result) + more)
  {
    hide JsonString, LooksOk;
    var h := "{\"version\":1,\"id\":" + JsonString(id);
    RegroupAnswer(h, result, more);
    hide AgentOk, OkTrue;
    Contains(h + ",", ",\"result\":" + result + "}" + more);
  }

  lemma Contains(a: Bytes, b: Bytes)
    ensures LooksOk(a + OkTrue() + b)
  {
    hide Find, OkTrue;
    var s := a + OkTrue() + b;
    assert s[|a|..|a| + |OkTrue()|] == OkTrue();
    FindIsFirst(s, OkTrue(), 0);
    assert OccursAt(s, OkTrue(), |a|);
  }

  lemma RegroupAnswer(h: Bytes, result: Bytes, more: Bytes)
    ensures h + ",\"ok\":true,\"result\":" + result + "}" + more
            == (h + ",") + OkTrue() + (",\"result\":" + result + "}" + more)
  {
    assert ",\"ok\":true,\"result\":" == "," + OkTrue() + ",\"result\":";
  }

  // ----- Errors as trees -----

  function ErrorTree(n: ErrorNames, id: Bytes, code: Bytes, message: Bytes): Json {
    Obj([Member(Plain(n.version), Number("1"))] + [StringMember(n.id, id)] + [Member(Plain(n.ok), Bool(false))]
        + [Member(Plain(n.error), Obj([StringMember(n.code, code)] + [StringMember(n.message, message)] + []))] + [])
  }

  /** A key, a colon and the text of a value. */
  function Entry(key: Key, text: Bytes): Bytes { Quoted(key) + ":" + text }

  lemma EntryText(key: Key, value: Json)
    ensures PrintMember(Member(Plain(key), value)) == Entry(key, Print(value))
  {
    hide Quoted, Print, IsBody;
    assert [] + Quoted(key) + [] == Quoted(key);
  }

  lemma EntryString(key: Key, v: Bytes)
    ensures PrintMember(StringMember(key, v)) == Entry(key, JsonString(v))
  {
    hide PrintMember, Escape, Entry, IsBody;
    EntryText(key, Str(Encoded(v)));
  }

  lemma PrintTwo(a: Member, b: Member)
    ensures Print(Obj([a] + [b] + [])) == "{" + PrintMember(a) + "," + PrintMember(b) + "}"
  {
    hide PrintMember, Print, PrintMembers;
    PrintObject([a], b, []);
    PrintOneMember(a);
    NothingBehind();
  }

  lemma PrintFour(a: Member, b: Member, c: Member, d: Member)
    ensures Print(Obj([a] + [b] + [c] + [d] + []))
            == "{" + PrintMember(a) + "," + PrintMember(b) + "," + PrintMember(c) + "," + PrintMember(d) + "}"
  {
    hide PrintMember, Print, PrintMembers;
    PrintObject([a] + [b] + [c], d, []);
    PrintBeforeMore([a] + [b], c);
    PrintBeforeMore([a], b);
    PrintOneMember(a);
    NothingBehind();
    RegroupFour(PrintMember(a), PrintMember(b), PrintMember(c), PrintMember(d));
  }

  lemma RegroupFour(a: Bytes, b: Bytes, c: Bytes, d: Bytes)
    ensures ("{" + a + ",") + b + "," + c + "," + d + "}" == "{" + a + "," + b + "," + c + "," + d + "}"
  {
  }

  lemma ConstantTexts()
    ensures Print(Number("1")) == "1" && Print(Bool(false)) == "false"
  {
  }

  /** The text of an error reply, entry by entry. */
  lemma ErrorEntries(n: ErrorNames, id: Bytes, code: Bytes, message: Bytes)
    requires StandardError(n)
    ensures var inner := "{" + Entry(n.code, JsonString(code)) + "," + Entry(n.message, JsonString(message)) + "}";
            AgentError(id, code, message)
            == "{" + Entry(n.version, "1") + "," + Entry(n.id, JsonString(id)) + "," + Entry(n.ok, "false") + ","
               + Entry(n.error, inner) + "}"
  {
    var i, c, m := JsonString(id), JsonString(code), JsonString(message);
    ErrorLiterals(n);
    hide Quoted, JsonString;
    RegroupEntries(Quoted(n.version), Quoted(n.id), i, Quoted(n.ok), Quoted(n.error), Quoted(n.code), c,
                   Quoted(n.message), m);
  }

  lemma RegroupEntries(v: Bytes, k: Bytes, i: Bytes, o: Bytes, e: Bytes, d: Bytes, c: Bytes, t: Bytes, m: Bytes)
    ensures ("{" + v + ":1," + k + ":") + i
            + (("," + o + ":false," + e + ":{" + d + ":") + c + ("," + t + ":") + m + "}}")
            == "{" + (v + ":" + "1") + "," + (k + ":" + i) + "," + (o + ":" + "false") + ","
               + (e + ":" + ("{" + (d + ":" + c) + "," + (t + ":" + m) + "}")) + "}"
  {
  }

  /** An error reply is the printed tree of its id, ok: false, and the error's code and message, each in its place. */
  lemma ErrorIsPrintedTree(n: ErrorNames, id: Bytes, code: Bytes, message: Bytes)
    requires StandardError(n)
    ensures AgentError(id, code, message) == Print(ErrorTree(n, id, code, message))
  {
    hide StandardError, AgentError, Print, PrintMember, Entry, JsonString, StringMember;
    var error := Obj([StringMember(n.code, code)] + [StringMember(n.message, message)] + []);
    ErrorEntries(n, id, code, message);
    ConstantTexts();
    EntryText(n.version, Number("1"));
    EntryString(n.id, id);
    EntryText(n.ok, Bool(false));
    EntryText(n.error, error);
    EntryString(n.code, code);
    EntryString(n.message, message);
    PrintTwo(StringMember(n.code, code), StringMember(n.message, message));
    PrintFour(Member(Plain(n.version), Number("1")), StringMember(n.id, id), Member(Plain(n.ok), Bool(false)),
              Member(Plain(n.error), error));
  }
}
