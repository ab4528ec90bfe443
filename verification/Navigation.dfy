/** What the address bar makes of its text (src/navigation.cpp:10-75). */
module Navigation {
  import opened Text

  const NUL: Byte := 0 as char
  const MAX_INPUT := 8192
  const SEARCH_HEAD: Bytes := "search.brave.com/search?q="

  predicate IsTrim(c: Byte) { c == ' ' || c == '\t' || c == '\r' || c == '\n' }

  function TrimStart(s: Bytes): (r: Bytes)
    ensures r != [] ==> !IsTrim(r[0])
  {
    if s != [] && IsTrim(s[0]) then TrimStart(s[1..]) else s
  }

  function TrimBack(s: Bytes): (r: Bytes)
    ensures r != [] ==> !IsTrim(r[|r| - 1])
    ensures |r| <= |s| && r == s[..|r|]
  {
    if s != [] && IsTrim(s[|s| - 1]) then TrimBack(s[..|s| - 1]) else s
  }

  function Trim(s: Bytes): Bytes { TrimBack(TrimStart(s)) }

  /** `std::tolower` in the "C" locale. */
  function LowerByte(c: Byte): Byte {
    if 'A' <= c <= 'Z' then (c as int + 32) as char else c
  }

  function Lower(s: Bytes): Bytes { seq(|s|, i requires 0 <= i < |s| => LowerByte(s[i])) }

  // ----- Query encoding -----

  predicate IsUnreserved(c: Byte) {
    'a' <= c <= 'z' || 'A' <= c <= 'Z' || '0' <= c <= '9' || c == '-' || c == '_' || c == '.' || c == '~'
  }

  function UpperHex(n: nat): Byte
    requires n < 16
  {
    if n < 10 then ('0' as int + n) as char else ('A' as int + (n - 10)) as char
  }

  function EncodeByte(c: Byte): Bytes {
    if IsUnreserved(c) then [c]
    else if c == ' ' then "+"
    else ['%', UpperHex(c as int / 16), UpperHex(c as int % 16)]
  }

  function EncodeQuery(s: Bytes): Bytes {
    if s == [] then [] else EncodeByte(s[0]) + EncodeQuery(s[1..])
  }

  lemma {:induction false} EncodeConcat(a: Bytes, b: Bytes)
    ensures EncodeQuery(a + b) == EncodeQuery(a) + EncodeQuery(b)
  {
    if a == [] {
      assert a + b == b;
    } else {
      assert (a + b)[1..] == a[1..] + b;
      EncodeConcat(a[1..], b);
    }
  }

  method EncodeQueryLoop(text: Bytes) returns (out: Bytes)
    ensures out == EncodeQuery(text)
  {
    out := [];
    for i := 0 to |text|
      invariant out == EncodeQuery(text[..i])
    {
      var c := text[i];
      assert text[..i + 1] == text[..i] + [c];
      EncodeConcat(text[..i], [c]);
      assert EncodeQuery([c]) == EncodeByte(c) + EncodeQuery([]);
      if IsUnreserved(c) { out := out + [c]; }
      else if c == ' ' { out := out + "+"; }
      else { out := out + ['%', UpperHex(c as int / 16), UpperHex(c as int % 16)]; }
    }
    assert text[..|text|] == text;
  }

  function Cons(c: Byte, rest: Option<Bytes>): Option<Bytes> {
    match rest
    case None => None
    case Some(s) => Some([c] + s)
  }

  /** How a server reads an `application/x-www-form-urlencoded` value. */
  function FormDecode(s: Bytes): Option<Bytes>
    decreases |s|
  {
    if s == [] then Some([])
    else if s[0] == '+' then Cons(' ', FormDecode(s[1..]))
    else if s[0] != '%' then Cons(s[0], FormDecode(s[1..]))
    else if |s| < 3 then None
    else
      match (HexValue(s[1]), HexValue(s[2]))
      case (Some(a), Some(b)) => Cons((a * 16 + b) as char, FormDecode(s[3..]))
      case _ => None
  }

  lemma DecodeEncodedByte(c: Byte, rest: Bytes)
    ensures FormDecode(EncodeByte(c) + rest) == Cons(c, FormDecode(rest))
  {
    var e := EncodeByte(c);
    assert (e + rest)[|e|..] == rest;
    if |e| == 3 {
      assert HexValue(UpperHex(c as int / 16)) == Some(c as int / 16);
      assert HexValue(UpperHex(c as int % 16)) == Some(c as int % 16);
    }
  }

  /** Decoding an encoded query gives every byte string back. */
  lemma {:induction false} QueryRoundTrip(s: Bytes)
    ensures FormDecode(EncodeQuery(s)) == Some(s)
  {
    hide EncodeByte, HexValue;
    if s == [] {
    } else {
      DecodeEncodedByte(s[0], EncodeQuery(s[1..]));
      hide FormDecode;
      QueryRoundTrip(s[1..]);
      assert [s[0]] + s[1..] == s;
    }
  }

  /** Letters, digits and four marks stand for themselves, a blank is a plus, all else a percent sign and two digits. */
  lemma EncodedByte(c: Byte)
    ensures EncodeQuery([c])
            == if 'a' <= c <= 'z' || 'A' <= c <= 'Z' || '0' <= c <= '9' || c in "-_.~" then [c]
               else if c == ' ' then "+"
               else ['%', UPPER_DIGITS[c as int / 16], UPPER_DIGITS[c as int % 16]]
  {
    assert EncodeQuery([c]) == EncodeByte(c) + EncodeQuery([c][1..]);
    assert EncodeQuery([c][1..]) == [];
    UpperDigit(c as int / 16);
    UpperDigit(c as int % 16);
    hide UpperHex;
  }

  lemma UpperDigit(n: nat)
    requires n < 16
    ensures UpperHex(n) == UPPER_DIGITS[n]
  {
  }

  // ----- The policy -----

  datatype Kind = Web | Internal | External | Rejected
  datatype Decision = Decision(kind: Kind, uri: Bytes, reason: string)

  /** A search template, split at the first place for the query. */
  datatype Policy = Policy(head: Bytes, tail: Bytes)

  /** The constructor throws when the template has no place for the query. */
  function MakePolicy(template: Bytes): Option<Policy> {
    match Find(template, "{query}", 0)
    case None => None
    case Some(at) => Some(Policy(template[..at], template[at + 7..]))
  }

  const DEFAULT_POLICY := Policy("https://" + SEARCH_HEAD, [])

  /** The default template, "https://search.brave.com/search?q={query}", gives this policy. */
  lemma DefaultTemplate()
    ensures MakePolicy("https://" + SEARCH_HEAD + "{query}") == Some(DEFAULT_POLICY)
  {
    hide Find;
    var head: Bytes := "https://" + SEARCH_HEAD;
    var t := head + "{query}";
    assert forall j :: 0 <= j < |head| ==> head[j] != '{';
    FindIsFirst(t, "{query}", 0);
    forall j | 0 <= j < |head|
      ensures !OccursAt(t, "{query}", j)
    {
      assert j + 7 <= |t| ==> t[j..j + 7][0] == head[j];
    }
    assert t[|head|..|head| + 7] == "{query}";
    assert OccursAt(t, "{query}", |head|);
    assert t[..|head|] == head && t[|head| + 7..] == [];
  }

  /** Every template with a place for the query splits there, at the first one, and no other is accepted. */
  lemma TemplateSplits(template: Bytes)
    ensures match MakePolicy(template)
            case None => forall j: nat :: !OccursAt(template, "{query}", j)
            case Some(p) =>
              && template == p.head + "{query}" + p.tail
              && forall j :: 0 <= j < |p.head| ==> !OccursAt(template, "{query}", j)
  {
    FindIsFirst(template, "{query}", 0);
    var query: Bytes := "{query}";
    assert |query| == 7;
  }

  predicate Contains(s: Bytes, c: Byte) { IndexOf(s, c) < |s| }

  function SearchUri(policy: Policy, text: Bytes): Bytes { policy.head + EncodeQuery(text) + policy.tail }

  predicate IsHostPort(input: Bytes) {
    var colon := IndexOf(input, ':');
    colon < |input| && (input[..colon] == "localhost" || Contains(input[..colon], '.'))
  }

  predicate LooksLikeHost(input: Bytes) {
    !Contains(input, ' ') && (Contains(input, '.') || input == "localhost" || "localhost:" <= input)
  }

  function Scheme(input: Bytes): Bytes { Lower(input[..IndexOf(input, ':')]) }

  predicate IsWebScheme(scheme: Bytes) {
    scheme == "http" || scheme == "https" || scheme == "file"
  }

  function Classify(policy: Policy, input: Bytes): Decision {
    if input == [] then Decision(Rejected, [], "empty input")
    else if Contains(input, NUL) || |input| > MAX_INPUT then Decision(Rejected, [], "invalid input")
    else if !Contains(input, ' ') && IsHostPort(input) then Decision(Web, "https://" + input, "")
    else if Contains(input, ':') then
      if IsWebScheme(Scheme(input)) then Decision(Web, input, "")
      else if Scheme(input) == "about" || Scheme(input) == "vantage" then Decision(Internal, input, "")
      else if Scheme(input) == "mailto" || Scheme(input) == "tel" then
        Decision(External, input, "requires user confirmation")
      else Decision(Rejected, [], "scheme is not allowed")
    else if LooksLikeHost(input) then Decision(Web, "https://" + input, "")
    else Decision(Web, SearchUri(policy, input), "")
  }

  function Resolve(policy: Policy, raw: Bytes): Decision { Classify(policy, Trim(raw)) }

  // ----- Trimming -----

  predicate AllTrim(s: Bytes) { forall i :: 0 <= i < |s| ==> IsTrim(s[i]) }

  predicate IsTrimmed(s: Bytes) { s != [] ==> !IsTrim(s[0]) && !IsTrim(s[|s| - 1]) }

  lemma {:induction false} TrimStartSkips(a: Bytes, s: Bytes)
    requires AllTrim(a)
    ensures TrimStart(a + s) == TrimStart(s)
  {
    if a == [] {
      assert a + s == s;
    } else {
      assert (a + s)[1..] == a[1..] + s;
      TrimStartSkips(a[1..], s);
    }
  }

  lemma {:induction false} TrimBackSkips(s: Bytes, b: Bytes)
    requires AllTrim(b)
    ensures TrimBack(s + b) == TrimBack(s)
  {
    if b == [] {
      assert s + b == s;
    } else {
      assert (s + b)[..|s + b| - 1] == s + b[..|b| - 1];
      TrimBackSkips(s, b[..|b| - 1]);
    }
  }

  lemma {:induction false} TrimStartKeepsBack(s: Bytes, b: Bytes)
    requires AllTrim(b)
    ensures TrimBack(TrimStart(s + b)) == TrimBack(TrimStart(s))
  {
    hide TrimBack;
    if s == [] {
      assert s + b == b && b + [] == b;
      TrimStartSkips(b, []);
    } else if IsTrim(s[0]) {
      assert (s + b)[1..] == s[1..] + b;
      TrimStartKeepsBack(s[1..], b);
    } else {
      TrimBackSkips(s, b);
    }
  }

  /** Blanks, tabs and line ends. */
  predicate AllBlank(s: Bytes) { forall i :: 0 <= i < |s| ==> s[i] in [' ', '\t', '\r', '\n'] }

  /** The decision does not depend on blanks, tabs and line ends around the text. */
  lemma TrimInvariant(policy: Policy, a: Bytes, s: Bytes, b: Bytes)
    requires AllBlank(a) && AllBlank(b)
    ensures Resolve(policy, a + s + b) == Resolve(policy, s)
  {
    assert AllTrim(a) && AllTrim(b);
    assert a + s + b == a + (s + b);
    TrimStartSkips(a, s + b);
    TrimStartKeepsBack(s, b);
  }

  lemma TrimIsTrimmed(s: Bytes)
    ensures IsTrimmed(Trim(s))
  {
    var t := TrimStart(s);
    if Trim(s) != [] { assert Trim(s)[0] == t[0]; }
  }

  lemma TrimmedStays(s: Bytes)
    requires IsTrimmed(s)
    ensures Trim(s) == s
  {
  }

  // ----- Schemes -----

  lemma HttpsScheme(rest: Bytes)
    ensures var u := "https://" + rest;
            Contains(u, ':') && Scheme(u) == "https" && !IsHostPort(u)
  {
    var u := "https://" + rest;
    var https: Bytes := "https";
    assert u[..5] == https;
    IndexIs(u, ':', 5);
    assert Lower(https) == https;
    assert forall i :: 0 <= i < 5 ==> https[i] != '.';
  }

  /** An https address of the policy's own making is taken as it is. */
  lemma HttpsIsStable(policy: Policy, rest: Bytes)
    requires rest != [] && !IsTrim(rest[|rest| - 1]) && !Contains(rest, NUL) && |rest| <= MAX_INPUT - 8
    ensures Resolve(policy, "https://" + rest) == Decision(Web, "https://" + rest, "")
  {
    hide Scheme, IsHostPort, SearchUri, LooksLikeHost, Contains;
    var u := "https://" + rest;
    assert u[0] == 'h' && u[|u| - 1] == rest[|rest| - 1];
    TrimmedStays(u);
    HttpsScheme(rest);
    NoNul("https://", rest);
  }

  lemma NoNul(a: Bytes, b: Bytes)
    requires !Contains(b, NUL) && forall i :: 0 <= i < |a| ==> a[i] != NUL
    ensures !Contains(a + b, NUL)
  {
    forall j | 0 <= j < |a + b|
      ensures (a + b)[j] != NUL
    {
      assert j >= |a| ==> (a + b)[j] == b[j - |a|];
    }
  }

  // ----- The decisions -----

  lemma {:induction false} EncodedBytes(s: Bytes)
    ensures var e := EncodeQuery(s);
            (s != [] ==> e != []) && forall i :: 0 <= i < |e| ==> IsUnreserved(e[i]) || e[i] == '+' || e[i] == '%'
  {
    if s == [] {
    } else {
      EncodedBytes(s[1..]);
    }
  }

  /** The text behind "https://" in a default search address. */
  function DefaultSearch(text: Bytes): Bytes { SEARCH_HEAD + EncodeQuery(text) }

  lemma DefaultSearchUri(text: Bytes)
    ensures SearchUri(DEFAULT_POLICY, text) == "https://" + DefaultSearch(text)
  {
    assert SearchUri(DEFAULT_POLICY, text) == "https://" + (SEARCH_HEAD + EncodeQuery(text));
  }

  lemma DefaultSearchIsClean(text: Bytes)
    requires text != []
    ensures var r := DefaultSearch(text);
            r != [] && !IsTrim(r[|r| - 1]) && !Contains(r, NUL)
  {
    var head := SEARCH_HEAD;
    EncodedBytes(text);
    assert forall i :: 0 <= i < |EncodeQuery(text)| ==> EncodeQuery(text)[i] != NUL;
    assert !Contains(EncodeQuery(text), NUL);
    assert forall i :: 0 <= i < |head| ==> head[i] != NUL;
    NoNul(head, EncodeQuery(text));
  }

  /** A text that the policy looks at: not empty, not blank at either end, without NUL and not too long. */
  predicate IsInput(s: Bytes) {
    && s != [] && s[0] !in [' ', '\t', '\r', '\n'] && s[|s| - 1] !in [' ', '\t', '\r', '\n']
    && Lacks(s, 0 as char) && |s| <= 8192
  }

  lemma InputIsTrimmed(s: Bytes)
    requires IsInput(s)
    ensures Trim(s) == s && !Contains(s, NUL)
  {
    TrimmedStays(s);
  }

  /** The same word but for the case of its letters; `word` is in lower case. */
  predicate SameLetters(s: Bytes, word: Bytes) {
    |s| == |word| &&
    forall i :: 0 <= i < |s| ==> s[i] == word[i] || ('A' <= s[i] <= 'Z' && s[i] as int + 32 == word[i] as int)
  }

  predicate AllLower(word: Bytes) { forall i :: 0 <= i < |word| ==> 'a' <= word[i] <= 'z' }

  lemma LowerIff(s: Bytes, word: Bytes)
    requires AllLower(word)
    ensures Lower(s) == word <==> SameLetters(s, word)
  {
    if SameLetters(s, word) {
      assert forall i :: 0 <= i < |s| ==> Lower(s)[i] == word[i];
    } else if |s| == |word| {
      assert forall i :: 0 <= i < |s| ==> Lower(s)[i] == LowerByte(s[i]);
    }
  }

  lemma SchemeIs(scheme: Bytes, rest: Bytes)
    requires Lacks(scheme, ':')
    ensures var s := scheme + ":" + rest;
            && Contains(s, ':') && Scheme(s) == Lower(scheme)
            && (IsHostPort(s) <==> scheme == "localhost" || !Lacks(scheme, '.'))
  {
    var s := scheme + ":" + rest;
    assert s[..|scheme|] == scheme;
    IndexIs(s, ':', |scheme|);
  }

  /** What a scheme is for, in any letter case. */
  function SchemeKind(scheme: Bytes): Kind {
    if SameLetters(scheme, "http") || SameLetters(scheme, "https") || SameLetters(scheme, "file") then Web
    else if SameLetters(scheme, "about") || SameLetters(scheme, "vantage") then Internal
    else if SameLetters(scheme, "mailto") || SameLetters(scheme, "tel") then External
    else Rejected
  }

  lemma LowerDecides(scheme: Bytes)
    ensures var low := Lower(scheme);
            SchemeKind(scheme) == if IsWebScheme(low) then Web
                                  else if low == "about" || low == "vantage" then Internal
                                  else if low == "mailto" || low == "tel" then External
                                  else Rejected
  {
    hide Lower, SameLetters;
    LowerIff(scheme, "http");
    LowerIff(scheme, "https");
    LowerIff(scheme, "file");
    LowerIff(scheme, "about");
    LowerIff(scheme, "vantage");
    LowerIff(scheme, "mailto");
    LowerIff(scheme, "tel");
  }

  /**
   * Behind the first colon of a text anything may stand; what stands before it decides. A dotted
   * name or "localhost" is a host with a port, if the text has no blank. Else it is a scheme, in
   * any letter case: http, https and file lead to the text itself, about and vantage to an
   * internal page, mailto and tel to an external handler, and every other one nowhere.
   */
  lemma SchemeDecides(policy: Policy, scheme: Bytes, rest: Bytes)
    requires Lacks(scheme, ':') && IsInput(scheme + ":" + rest)
    ensures var s := scheme + ":" + rest;
            Resolve(policy, s)
            == if Lacks(s, ' ') && (scheme == "localhost" || !Lacks(scheme, '.')) then Decision(Web, "https://" + s, "")
               else
                 match SchemeKind(scheme)
                 case External => Decision(External, s, "requires user confirmation")
                 case Rejected => Decision(Rejected, [], "scheme is not allowed")
                 case kind => Decision(kind, s, "")
  {
    hide Scheme, IsHostPort, SearchUri, LooksLikeHost, Trim, SchemeKind;
    InputIsTrimmed(scheme + ":" + rest);
    SchemeIs(scheme, rest);
    LowerDecides(scheme);
  }

  /** Without a colon, a dotted name or "localhost" without blanks is a host, and anything else is searched for. */
  lemma NoColonDecides(policy: Policy, s: Bytes)
    requires Lacks(s, ':') && IsInput(s)
    ensures Resolve(policy, s)
            == if Lacks(s, ' ') && (!Lacks(s, '.') || s == "localhost") then Decision(Web, "https://" + s, "")
               else Decision(Web, policy.head + EncodeQuery(s) + policy.tail, "")
  {
    hide Trim;
    InputIsTrimmed(s);
    LocalPort(s);
  }

  lemma LocalPort(s: Bytes)
    ensures "localhost:" <= s ==> !Lacks(s, ':')
  {
    if "localhost:" <= s { assert s[9] == ':'; }
  }

  /** Nothing but blanks, a NUL inside, and more than 8192 bytes lead nowhere. */
  lemma BadInputIsRejected(policy: Policy, s: Bytes)
    requires AllBlank(s) || (IsTrimmed(s) && (!Lacks(s, 0 as char) || |s| > 8192))
    ensures Resolve(policy, s) == Decision(Rejected, [], if AllBlank(s) then "empty input" else "invalid input")
  {
    if AllBlank(s) {
      assert AllTrim(s);
      assert s + [] == s;
      TrimStartSkips(s, []);
    } else {
      TrimmedStays(s);
    }
  }

  /**
   * Over all texts: what goes to an internal page or an external handler is the trimmed text
   * itself, under one of their schemes, and a rejection has no address.
   */
  lemma KindsHaveSchemes(policy: Policy, raw: Bytes)
    ensures var d := Resolve(policy, raw);
            && (d.kind == Rejected ==> d.uri == [])
            && (d.kind == External || d.kind == Internal ==>
                  d.uri == Trim(raw) && !Lacks(d.uri, ':') && SchemeKind(d.uri[..IndexOf(d.uri, ':')]) == d.kind)
  {
    hide IsHostPort, SearchUri, LooksLikeHost, Trim, Lower, SchemeKind;
    var s := Trim(raw);
    LowerDecides(s[..IndexOf(s, ':')]);
  }

  /** Every web decision of the default policy leads to an http, https or file address. */
  lemma WebScheme(raw: Bytes)
    requires Resolve(DEFAULT_POLICY, raw).kind == Web
    ensures var uri := Resolve(DEFAULT_POLICY, raw).uri;
            Contains(uri, ':') && IsWebScheme(Scheme(uri))
  {
    hide Scheme, IsHostPort, SearchUri, LooksLikeHost;
    var input := Trim(raw);
    HttpsScheme(input);
    HttpsScheme(DefaultSearch(input));
    DefaultSearchUri(input);
  }

  /**
   * Resolving an accepted result again gives the same decision, exactly when the result is
   * within the length the policy takes.
   */
  lemma ResolveIsIdempotent(raw: Bytes)
    requires Resolve(DEFAULT_POLICY, raw).kind != Rejected
    ensures var d := Resolve(DEFAULT_POLICY, raw);
            Resolve(DEFAULT_POLICY, d.uri) == d <==> |d.uri| <= MAX_INPUT
  {
    hide Scheme, IsHostPort, SearchUri, LooksLikeHost, Contains, Trim;
    var d, input := Resolve(DEFAULT_POLICY, raw), Trim(raw);
    TrimIsTrimmed(raw);
    DefaultSearchUri(input);
    if d.uri == input {
      TrimmedStays(input);
    } else {
      var rest := if d.uri == "https://" + input then input else DefaultSearch(input);
      DefaultSearchIsClean(input);
      assert d.uri == "https://" + rest;
      if |d.uri| <= MAX_INPUT {
        HttpsIsStable(DEFAULT_POLICY, rest);
      } else {
        LongIsRejected(DEFAULT_POLICY, rest);
      }
    }
  }

  lemma LongIsRejected(policy: Policy, rest: Bytes)
    requires rest != [] && !IsTrim(rest[|rest| - 1]) && |rest| > MAX_INPUT - 8
    ensures Resolve(policy, "https://" + rest).kind == Rejected
  {
    var u := "https://" + rest;
    assert u[0] == 'h' && u[|u| - 1] == rest[|rest| - 1];
    TrimmedStays(u);
  }

  /** A host of 8191 bytes is accepted, and its address is refused. */
  lemma LongHostIsRefused(host: Bytes)
    requires |host| == 8191 && host[0] == '.' && forall i :: 1 <= i < |host| ==> host[i] == 'a'
    ensures var d := Resolve(DEFAULT_POLICY, host);
            d == Decision(Web, "https://" + host, "") && Resolve(DEFAULT_POLICY, d.uri).kind == Rejected
  {
    hide SearchUri;
    assert host[|host| - 1] == 'a';
    TrimmedStays(host);
    assert !Contains(host, ' ') && !Contains(host, NUL) && !Contains(host, ':') && Contains(host, '.');
    LongIsRejected(DEFAULT_POLICY, host);
  }

  /** Under every template two searches lead to the same address only if their texts are equal. */
  lemma SearchesAreDistinct(policy: Policy, a: Bytes, b: Bytes)
    requires SearchUri(policy, a) == SearchUri(policy, b)
    ensures a == b
  {
    var u, v := SearchUri(policy, a), SearchUri(policy, b);
    assert u[|policy.head|..|u| - |policy.tail|] == EncodeQuery(a);
    assert v[|policy.head|..|v| - |policy.tail|] == EncodeQuery(b);
    QueryRoundTrip(a);
    QueryRoundTrip(b);
  }
}
