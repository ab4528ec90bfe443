/** What `field` returns on printed JSON objects. */
module JsonFieldLaws {
  import opened Text
  import opened JsonText
  import opened JsonField
  import opened JsonTree

  // ----- The shape of printed trees -----

  /** Bytes the scan passes without changing its state. */
  predicate IsPlain(c: Byte) {
    c !in ['\"', '{', '}', '[', ']', ',']
  }

  /** Not empty, and no white space at either end. */
  predicate Solid(s: Bytes) {
    s != [] && !IsSpace(s[0]) && !IsSpace(s[|s| - 1])
  }

  predicate IsLeaf(t: Json) { t.Null? || t.Bool? || t.Number? }

  lemma LeafBytes(t: Json)
    requires IsLeaf(t)
    ensures Print(t) != [] && forall i :: 0 <= i < |Print(t)| ==> IsPlain(Print(t)[i]) && Print(t)[i] > ' '
  {
    match t
    case Number(text) => assert forall i :: 0 <= i < |text| ==> IsNumberByte(text[i]);
    case _ =>
  }

  lemma PrintShape(t: Json)
    requires !t.Padded?
    ensures Solid(Print(t)) && (Print(t)[0] == '\"' <==> t.Str?)
  {
    if IsLeaf(t) {
      LeafBytes(t);
    } else {
      hide PrintItems, PrintMembers, IsBody;
    }
  }

  /** The white space before a value. */
  function Lead(t: Json): Bytes {
    if t.Padded? then t.before + Lead(t.value) else []
  }

  /** A printed value is its core with white space around it. */
  lemma {:induction false} Unpad(t: Json) returns (lead: Space, trail: Space)
    ensures Print(t) == lead + Print(Core(t)) + trail && lead == Lead(t)
  {
    hide Print;
    if t.Padded? {
      var l, r := Unpad(t.value);
      SpaceConcat(t.before, l);
      SpaceConcat(r, t.after);
      lead, trail := t.before + l, r + t.after;
      PrintPadded(t);
      RegroupPadded(t.before, l, Print(Core(t)), r, t.after);
    } else {
      lead, trail := [], [];
      assert [] + Print(t) + [] == Print(t);
    }
  }

  lemma SpaceConcat(a: Space, b: Space)
    ensures AllSpace(a + b)
  {
  }

  lemma PrintPadded(t: Json)
    requires t.Padded?
    ensures Print(t) == t.before + Print(t.value) + t.after
  {
  }

  lemma RegroupPadded(a: Bytes, l: Bytes, p: Bytes, r: Bytes, b: Bytes)
    ensures a + (l + p + r) + b == (a + l) + p + (r + b)
  {
  }

  // ----- Quiet trees close no key -----

  predicate IsMark(c: Byte) {
    c == '{' || c == '}' || c == '[' || c == ']' || c == ',' || c == ':'
  }

  lemma NoQuoteInSpace(s: Space)
    ensures Lacks(s, '\"') && (s != [] ==> !IsKeyByte(s[|s| - 1]))
  {
    assert forall i :: 0 <= i < |s| ==> IsSpace(s[i]);
  }

  lemma SafeSpaced(a: Space, b: Bytes, c: Space, key: Key)
    requires Safe(b, key)
    ensures Safe(a + b + c, key)
  {
    hide Safe;
    NoQuoteInSpace(a);
    NoQuoteInSpace(c);
    SafeWithoutQuotes(a, key);
    SafeWithoutQuotes(c, key);
    SafeConcat(a, b, key);
    assert c != [] ==> IsSpace(c[0]);
    SafeConcat(a + b, c, key);
  }

  lemma SafeJoin(a: Bytes, mark: Byte, b: Bytes, key: Key)
    requires Safe(a, key) && Safe(b, key) && IsMark(mark)
    ensures Safe(a + [mark] + b, key)
  {
    SafeWithoutQuotes([mark], key);
    SafeConcat(a, [mark], key);
    SafeConcat(a + [mark], b, key);
  }

  lemma SafeBrackets(open: Byte, gap: Space, body: Bytes, close: Byte, key: Key)
    requires Safe(body, key) && IsMark(open) && IsMark(close)
    ensures Safe([open] + (gap + body) + [close], key)
  {
    hide Safe;
    SafeWithoutQuotes([], key);
    SafeSpaced(gap, body, [], key);
    assert gap + body + [] == gap + body;
    SafeJoin([], open, gap + body, key);
    assert [] + [open] + (gap + body) == [open] + (gap + body);
    SafeJoin([open] + (gap + body), close, [], key);
    assert [open] + (gap + body) + [close] + [] == [open] + (gap + body) + [close];
  }

  lemma {:induction false} SafeTree(t: Json, key: Key)
    requires Quiet(t, key)
    ensures Safe(Print(t), key)
    decreases t, 1
  {
    hide Safe, PrintItems, PrintMembers;
    match t
    case Str(body) => SafeString(body, key);
    case Arr(items, gap) =>
      SafeItems(items, key);
      SafeBrackets('[', gap, PrintItems(items), ']', key);
    case Obj(members, gap) =>
      SafeMembers(members, key);
      SafeBrackets('{', gap, PrintMembers(members), '}', key);
    case Padded(before, value, after) =>
      SafeTree(value, key);
      SafeSpaced(before, Print(value), after, key);
    case _ =>
      LeafBytes(t);
      SafeWithoutQuotes(Print(t), key);
  }

  lemma {:induction false} SafeItems(items: seq<Json>, key: Key)
    requires QuietItems(items, key)
    ensures Safe(PrintItems(items), key)
    decreases items, 0
  {
    if items == [] {
    } else {
      SafeTree(items[0], key);
      SafeItems(items[1..], key);
      if |items| == 1 {
        assert PrintItems(items) == Print(items[0]);
      } else {
        SafeJoin(Print(items[0]), ',', PrintItems(items[1..]), key);
      }
    }
  }

  lemma {:induction false} SafeMembers(members: seq<Member>, key: Key)
    requires QuietMembers(members, key)
    ensures Safe(PrintMembers(members), key)
    decreases members, 0
  {
    hide Safe, KeyText, Print;
    if members == [] {
      SafeWithoutQuotes([], key);
    } else {
      var m := members[0];
      SafeKeyText(m.lead, m.key, m.trail, key);
      SafeTree(m.value, key);
      SafeJoin(KeyText(m.lead, m.key, m.trail), ':', Print(m.value), key);
      SafeMembers(members[1..], key);
      if |members| == 1 {
        assert PrintMembers(members) == PrintMember(m);
      } else {
        SafeJoin(PrintMember(m), ',', PrintMembers(members[1..]), key);
      }
    }
  }

  lemma SafeKeyText(lead: Space, name: Body, trail: Space, key: Key)
    requires !Closes(name, key)
    ensures Safe(KeyText(lead, name, trail), key)
  {
    hide Safe, Closes;
    SafeString(name, key);
    SafeSpaced(lead, Quoted(name), trail, key);
  }

  // ----- The depth scan runs over a whole printed tree -----

  lemma {:induction false} ScanPlain(s: Bytes, rest: Bytes, depth: nat)
    requires forall i :: 0 <= i < |s| ==> IsPlain(s[i])
    ensures ScanLength(s + rest, depth, false, false) == |s| + ScanLength(rest, depth, false, false)
  {
    if s == [] {
      assert s + rest == rest;
    } else {
      assert (s + rest)[1..] == s[1..] + rest;
      assert IsPlain((s + rest)[0]);
      ScanPlain(s[1..], rest, depth);
    }
  }

  /** Inside a literal nothing but the unescaped quote ends the quoted state. */
  lemma {:induction false} ScanString(body: Bytes, rest: Bytes, depth: nat)
    requires IsBody(body)
    ensures ScanLength(body + ("\"" + rest), depth, true, false) == |body| + 1 + ScanLength(rest, depth, false, false)
    decreases |body|
  {
    hide UnitAt;
    var tail: Bytes := "\"" + rest;
    if body == [] {
      assert body + tail == tail && tail[1..] == rest;
    } else {
      ScanUnit(body, tail, depth);
      hide ScanLength;
      ScanString(body[UnitAt(body).value.1..], rest, depth);
    }
  }

  lemma ScanUnit(b: Bytes, rest: Bytes, depth: nat)
    requires b != [] && b[0] != '\"' && UnitAt(b).Some?
    ensures var n := UnitAt(b).value.1;
            ScanLength(b + rest, depth, true, false) == n + ScanLength(b[n..] + rest, depth, true, false)
  {
    var n, s := UnitAt(b).value.1, b + rest;
    assert s[1..] == b[1..] + rest;
    if n > 1 {
      assert s[1..][1..] == b[2..] + rest;
      if n > 2 {
        UnitDigits(b);
        assert b[2..] + rest == b[2..n] + (b[n..] + rest);
        hide ScanLength;
        ScanQuoted(b[2..n], b[n..] + rest, depth);
      }
    }
  }

  lemma UnitDigits(b: Bytes)
    requires b != [] && UnitAt(b).Some? && UnitAt(b).value.1 > 2
    ensures var d := b[2..UnitAt(b).value.1];
            |d| == 4 && forall i :: 0 <= i < 4 ==> d[i] != '\"' && d[i] != '\\'
  {
    hide EncodeUtf8;
    assert forall i :: 0 <= i < 4 ==> b[2..][i] == b[2..6][i];
  }

  lemma {:induction false} ScanQuoted(s: Bytes, rest: Bytes, depth: nat)
    requires forall i :: 0 <= i < |s| ==> s[i] != '\"' && s[i] != '\\'
    ensures ScanLength(s + rest, depth, true, false) == |s| + ScanLength(rest, depth, true, false)
  {
    if s == [] {
      assert s + rest == rest;
    } else {
      assert (s + rest)[1..] == s[1..] + rest;
      ScanQuoted(s[1..], rest, depth);
    }
  }

  lemma ScanLiteral(body: Body, rest: Bytes, depth: nat)
    ensures ScanLength(Quoted(body) + rest, depth, false, false)
            == |Quoted(body)| + ScanLength(rest, depth, false, false)
  {
    assert (Quoted(body) + rest)[1..] == body + ("\"" + rest);
    ScanString(body, rest, depth);
  }

  lemma ScanSpace(s: Space, rest: Bytes, depth: nat)
    ensures ScanLength(s + rest, depth, false, false) == |s| + ScanLength(rest, depth, false, false)
  {
    hide ScanLength;
    assert forall i :: 0 <= i < |s| ==> IsSpace(s[i]);
    ScanPlain(s, rest, depth);
  }

  /**
   * Brackets, commas, quotes and escapes inside the tree never end the scan, at any depth:
   * it runs over exactly the printed tree and is then where it was.
   */
  lemma {:induction false} ScanTree(t: Json, rest: Bytes, depth: nat)
    ensures ScanLength(Print(t) + rest, depth, false, false)
            == |Print(t)| + ScanLength(rest, depth, false, false)
    decreases t, 1
  {
    hide ScanLength, PrintItems, PrintMembers;
    match t
    case Str(body) => ScanLiteral(body, rest, depth);
    case Arr(items, gap) =>
      ScanItems(items, "]" + rest, depth + 1);
      ScanBrackets('[', gap, PrintItems(items), ']', rest, depth);
    case Obj(members, gap) =>
      ScanMembers(members, "}" + rest, depth + 1);
      ScanBrackets('{', gap, PrintMembers(members), '}', rest, depth);
    case Padded(before, value, after) =>
      ScanTree(value, after + rest, depth);
      ScanPadded(before, Print(value), after, rest, depth);
    case _ =>
      LeafBytes(t);
      hide Print;
      ScanPlain(Print(t), rest, depth);
  }

  lemma ScanPadded(before: Space, p: Bytes, after: Space, rest: Bytes, depth: nat)
    requires ScanLength(p + (after + rest), depth, false, false) == |p| + ScanLength(after + rest, depth, false, false)
    ensures ScanLength(before + p + after + rest, depth, false, false)
            == |before| + |p| + |after| + ScanLength(rest, depth, false, false)
  {
    hide ScanLength;
    assert before + p + after + rest == before + (p + (after + rest));
    ScanSpace(before, p + (after + rest), depth);
    ScanSpace(after, rest, depth);
  }

  lemma ScanBrackets(open: Byte, gap: Space, body: Bytes, close: Byte, rest: Bytes, depth: nat)
    requires open in ['{', '['] && close in ['}', ']']
    requires ScanLength(body + ([close] + rest), depth + 1, false, false)
             == |body| + ScanLength([close] + rest, depth + 1, false, false)
    ensures ScanLength([open] + (gap + body) + [close] + rest, depth, false, false)
            == |gap| + |body| + 2 + ScanLength(rest, depth, false, false)
  {
    var s := [open] + (gap + body) + [close] + rest;
    ScanSpace(gap, body + ([close] + rest), depth + 1);
    assert s[1..] == gap + (body + ([close] + rest));
    assert ([close] + rest)[1..] == rest;
  }

  lemma {:induction false} ScanItems(items: seq<Json>, rest: Bytes, depth: nat)
    requires depth > 0
    ensures ScanLength(PrintItems(items) + rest, depth, false, false)
            == |PrintItems(items)| + ScanLength(rest, depth, false, false)
    decreases items, 0
  {
    hide ScanLength, Print;
    if items == [] {
      assert PrintItems(items) + rest == rest;
    } else {
      var sep: Bytes := if |items| == 1 then [] else ",";
      var tail := PrintItems(items[1..]) + rest;
      assert PrintItems(items) + rest == Print(items[0]) + (sep + tail);
      ScanTree(items[0], sep + tail, depth);
      ScanSeparator(sep, tail, depth);
      ScanItems(items[1..], rest, depth);
    }
  }

  lemma ScanSeparator(sep: Bytes, rest: Bytes, depth: nat)
    requires depth > 0 && (sep == [] || sep == "," || sep == ":")
    ensures ScanLength(sep + rest, depth, false, false) == |sep| + ScanLength(rest, depth, false, false)
  {
    if sep == [] {
      assert sep + rest == rest;
    } else {
      assert (sep + rest)[1..] == rest;
    }
  }

  lemma {:induction false} ScanMembers(members: seq<Member>, rest: Bytes, depth: nat)
    requires depth > 0
    ensures ScanLength(PrintMembers(members) + rest, depth, false, false)
            == |PrintMembers(members)| + ScanLength(rest, depth, false, false)
    decreases members, 0
  {
    hide ScanLength, KeyText, Print;
    if members == [] {
      assert PrintMembers(members) + rest == rest;
    } else {
      var m := members[0];
      var sep: Bytes := if |members| == 1 then [] else ",";
      var tail := PrintMembers(members[1..]) + rest;
      var name := KeyText(m.lead, m.key, m.trail);
      assert PrintMembers(members) + rest == name + (":" + (Print(m.value) + (sep + tail)));
      ScanKeyText(m.lead, m.key, m.trail, ":" + (Print(m.value) + (sep + tail)), depth);
      ScanSeparator(":", Print(m.value) + (sep + tail), depth);
      ScanTree(m.value, sep + tail, depth);
      ScanSeparator(sep, tail, depth);
      ScanMembers(members[1..], rest, depth);
    }
  }

  lemma ScanKeyText(lead: Space, key: Body, trail: Space, rest: Bytes, depth: nat)
    ensures ScanLength(KeyText(lead, key, trail) + rest, depth, false, false)
            == |KeyText(lead, key, trail)| + ScanLength(rest, depth, false, false)
  {
    hide ScanLength, Quoted;
    var k := Quoted(key);
    assert lead + k + trail + rest == lead + (k + (trail + rest));
    ScanSpace(lead, k + (trail + rest), depth);
    ScanLiteral(key, trail + rest, depth);
    ScanSpace(trail, rest, depth);
  }

  // ----- The value of a member -----

  /** What a caller of `field` gets for a printed value: strings are decoded, white space around it is dropped. */
  function FieldValue(t: Json): Bytes {
    if Core(t).Str? then BodyValue(Core(t).body) else Print(Core(t))
  }

  lemma ValueAtTree(t: Json, rest: Bytes)
    requires rest == [] || rest[0] == '}' || rest[0] == ']' || rest[0] == ','
    ensures ValueAt(Print(t) + rest) == Some(FieldValue(t))
  {
    hide ScanLength, SkipSpace, TrimEnd, ReadString, Print;
    var lead, trail := Unpad(t);
    var core := Core(t);
    var p := Print(core);
    var v := p + (trail + rest);
    PrintShape(core);
    assert Print(t) + rest == lead + v;
    SkipSpaceOver(lead, v);
    NoSpaceToSkip(v);
    if core.Str? {
      StringText(core);
      ReadQuoted(core.body, trail + rest);
    } else {
      ScanTree(core, trail + rest, 0);
      ScanSpace(trail, rest, 0);
      ScanStops(rest);
      assert v[..|p| + |trail|] == p + trail;
      TrimEndOver(p, trail);
      NoSpaceToTrim(p);
    }
  }

  lemma StringText(t: Json)
    requires t.Str?
    ensures Print(t) == Quoted(t.body)
  {
  }

  lemma NoSpaceToSkip(s: Bytes)
    ensures s != [] && !IsSpace(s[0]) ==> SkipSpace(s) == s
  {
  }

  lemma NoSpaceToTrim(s: Bytes)
    ensures Solid(s) ==> TrimEnd(s) == s
  {
  }

  lemma ScanStops(rest: Bytes)
    requires rest == [] || rest[0] == '}' || rest[0] == ']' || rest[0] == ','
    ensures ScanLength(rest, 0, false, false) == 0
  {
  }

  // ----- Where a lookup lands -----

  /** The members before and behind one, with the commas that part them from it. */
  function PrintBefore(members: seq<Member>): Bytes {
    "{" + PrintMembers(members) + Comma(members)
  }

  function PrintBehind(members: seq<Member>): Bytes {
    Comma(members) + PrintMembers(members) + "}"
  }

  function Comma(members: seq<Member>): Bytes {
    if members == [] then [] else ","
  }

  lemma PrintOneMember(m: Member)
    ensures PrintMembers([m]) == PrintMember(m)
  {
    assert PrintMembers([m][1..]) == [];
  }

  lemma {:induction false} PrintMembersConcat(a: seq<Member>, b: seq<Member>)
    ensures PrintMembers(a + b) == PrintMembers(a) + (if a == [] || b == [] then [] else ",") + PrintMembers(b)
  {
    hide PrintMember;
    if a == [] {
      assert a + b == b;
    } else if b == [] {
      assert a + b == a;
    } else {
      assert (a + b)[1..] == a[1..] + b;
      PrintMembersConcat(a[1..], b);
    }
  }

  lemma PrintObject(before: seq<Member>, m: Member, behind: seq<Member>)
    ensures Print(Obj(before + [m] + behind)) == PrintBefore(before) + PrintMember(m) + PrintBehind(behind)
  {
    hide PrintMembers, PrintMember;
    PrintMembersConcat(before, [m]);
    PrintMembersConcat(before + [m], behind);
    PrintOneMember(m);
    Regroup(PrintMembers(before), Comma(before), PrintMember(m), Comma(behind), PrintMembers(behind));
  }

  lemma Regroup(p: Bytes, c: Bytes, x: Bytes, d: Bytes, q: Bytes)
    ensures "{" + ([] + ((p + c + x) + d + q)) + "}" == ("{" + p + c) + x + (d + q + "}")
  {
  }

  lemma PrintBeforeMore(before: seq<Member>, m: Member)
    ensures PrintBefore(before + [m]) == PrintBefore(before) + PrintMember(m) + ","
  {
    hide PrintMembers, PrintMember;
    PrintMembersConcat(before, [m]);
    PrintOneMember(m);
    RegroupBefore(PrintMembers(before), Comma(before), PrintMember(m));
  }

  lemma RegroupBefore(p: Bytes, c: Bytes, x: Bytes)
    ensures "{" + (p + c + x) + "," == ("{" + p + c) + x + ","
  {
  }

  lemma SafeBefore(before: seq<Member>, b: Bytes, key: Key)
    requires QuietMembers(before, key) && Safe(b, key)
    ensures Safe(PrintBefore(before) + b, key)
  {
    hide Safe, PrintMembers;
    var p := PrintMembers(before);
    SafeWithoutQuotes([], key);
    SafeMembers(before, key);
    SafeJoin([], '{', p, key);
    assert [] + ['{'] + p == "{" + p;
    if before == [] {
      SafeJoin([], '{', b, key);
      NoMembers();
      assert [] + ['{'] + b == PrintBefore(before) + b;
    } else {
      SafeJoin("{" + p, ',', b, key);
    }
  }

  lemma NoMembers()
    ensures PrintMembers([]) == []
  {
  }

  lemma AfterMark(before: Bytes, rest: Bytes)
    requires forall i :: 0 <= i < |before| ==> before[i] != ':'
    ensures After(before + ":" + rest, ":") == Some(rest)
  {
    var s := before + ":" + rest;
    assert s[|before|..|before| + 1] == ":";
    forall j | 0 <= j < |before|
      ensures !OccursAt(s, ":", j)
    {
      assert s[j..j + 1][0] == before[j];
    }
    AfterFirst(s, ":", |before|);
    assert s[|before| + 1..] == rest;
  }

  /** Text that is safe up to a quoted key, then some bytes up to a colon, then anything. */
  lemma FieldBehindQuote(a: Bytes, next: Bytes, rest: Bytes, key: Key)
    requires Safe(a, key) && EndsWithKey(a, key)
    requires forall i :: 0 <= i < |next| ==> next[i] != ':'
    ensures FieldOf(a + "\"" + (next + ":" + rest), key) == ValueAt(rest)
  {
    hide Safe, EndsWithKey, ValueAt, After;
    FoundAtEnd(a, next + ":" + rest, key);
    AfterMark(next, rest);
  }

  lemma EndsWithKeyBehind(a: Bytes, b: Bytes, key: Bytes)
    requires EndsWithKey(b, key)
    ensures EndsWithKey(a + b, key)
  {
    var s := a + b;
    assert s[|s| - |key| - 1..] == b[|b| - |key| - 1..];
  }

  lemma SpaceHasNoColon(s: Space)
    ensures forall i :: 0 <= i < |s| ==> s[i] != ':'
  {
    assert forall i :: 0 <= i < |s| ==> IsSpace(s[i]);
  }

  /**
   * Behind members whose literals do not end with the quoted key, a lookup lands behind the
   * colon of the key itself, whatever text follows.
   */
  lemma FieldAtKey(before: seq<Member>, lead: Space, key: Key, trail: Space, rest: Bytes)
    requires QuietMembers(before, key)
    ensures FieldOf(PrintBefore(before) + KeyText(lead, Plain(key), trail) + ":" + rest, key) == ValueAt(rest)
  {
    hide Safe, EndsWithKey, PrintBefore, QuietMembers, FieldOf, ValueAt, IsBody;
    var open: Bytes := "\"" + key;
    SafeOpenString(Plain(key), key);
    SafeSpaced(lead, open, [], key);
    assert lead + open + [] == lead + open;
    SafeBefore(before, lead + open, key);
    EndsWith([], key);
    assert [] + open == open;
    EndsWithKeyBehind(lead, open, key);
    EndsWithKeyBehind(PrintBefore(before), lead + open, key);
    SpaceHasNoColon(trail);
    FieldBehindQuote(PrintBefore(before) + (lead + open), trail, rest, key);
    RegroupKey(PrintBefore(before), lead, key, trail, rest);
  }

  lemma RegroupKey(a: Bytes, l: Bytes, e: Bytes, t: Bytes, rest: Bytes)
    ensures a + (l + ("\"" + e)) + "\"" + (t + ":" + rest) == a + (l + ("\"" + e + "\"") + t) + ":" + rest
  {
  }

  /** When the first literal to end with the quoted key is a value, the lookup lands behind the next colon instead. */
  lemma FieldAtMention(before: seq<Member>, name: Body, s: Body, next: Bytes, rest: Bytes, key: Key)
    requires QuietMembers(before, key) && !Closes(name, key) && Closes(s, key)
    requires forall i :: 0 <= i < |next| ==> next[i] != ':'
    ensures FieldOf(PrintBefore(before) + PrintMember(Member(name, Str(s))) + next + ":" + rest, key) == ValueAt(rest)
  {
    hide Safe, EndsWithKey, Quoted, QuietMembers, PrintBefore, FieldOf, ValueAt, IsBody;
    var k, open := Quoted(name), "\"" + s;
    SafeString(name, key);
    SafeOpenString(s, key);
    SafeJoin(k, ':', open, key);
    SafeBefore(before, k + ":" + open, key);
    EndsWithKeyBehind(k + ":", open, key);
    EndsWithKeyBehind(PrintBefore(before), k + ":" + open, key);
    FieldBehindQuote(PrintBefore(before) + (k + ":" + open), next, rest, key);
    QuotedMember(name, s);
    RegroupMention(PrintBefore(before), k, s, next, rest);
  }

  lemma QuotedMember(name: Body, s: Body)
    ensures PrintMember(Member(name, Str(s))) == Quoted(name) + ":" + ("\"" + s + "\"")
  {
    hide IsBody;
    assert [] + Quoted(name) + [] == Quoted(name);
  }

  lemma RegroupMention(a: Bytes, k: Bytes, e: Bytes, n: Bytes, rest: Bytes)
    ensures a + (k + ":" + ("\"" + e)) + "\"" + (n + ":" + rest) == a + (k + ":" + ("\"" + e + "\"")) + n + ":" + rest
  {
  }

  /**
   * In a printed object `field` finds the member called `key`, whatever follows it in the
   * object or behind it, when no earlier literal ends with the quoted key.
   */
  lemma FieldOfMember(before: seq<Member>, lead: Space, key: Key, trail: Space, value: Json, behind: seq<Member>,
                      more: Bytes)
    requires QuietMembers(before, key)
    ensures FieldOf(Print(Obj(before + [Member(Plain(key), value, lead, trail)] + behind)) + more, key)
            == Some(FieldValue(value))
  {
    hide PrintBefore, PrintMembers, Print, KeyText, QuietMembers, FieldOf, ValueAt, FieldValue;
    var m := Member(Plain(key), value, lead, trail);
    var name, rest := KeyText(lead, Plain(key), trail), Print(value) + (PrintBehind(behind) + more);
    PrintObject(before, m, behind);
    RegroupMember(PrintBefore(before), name, Print(value), PrintBehind(behind), more);
    FieldAtKey(before, lead, key, trail, rest);
    BehindStarts(behind, more);
    ValueAtTree(value, PrintBehind(behind) + more);
  }

  lemma BehindStarts(behind: seq<Member>, more: Bytes)
    ensures var rest := PrintBehind(behind) + more; rest != [] && (rest[0] == '}' || rest[0] == ',')
  {
    if behind == [] { NoMembers(); }
  }

  lemma RegroupMember(a: Bytes, k: Bytes, v: Bytes, b: Bytes, more: Bytes)
    ensures a + (k + ":" + v) + b + more == a + k + ":" + (v + (b + more))
  {
  }

  /** The same where a string value does: `field` returns the value of the member behind it. */
  lemma FieldBehindMention(before: seq<Member>, name: Body, s: Body, next: Member, behind: seq<Member>, more: Bytes,
                           key: Key)
    requires QuietMembers(before, key) && !Closes(name, key) && Closes(s, key)
    requires forall i :: 0 <= i < |next.key| ==> next.key[i] != ':'
    ensures FieldOf(Print(Obj(before + [Member(name, Str(s))] + [next] + behind)) + more, key)
            == Some(FieldValue(next.value))
  {
    hide PrintBefore, PrintMembers, Print, IsBody, QuietMembers, Closes, FieldOf, ValueAt, FieldValue;
    var m, end := Member(name, Str(s)), PrintBehind(behind) + more;
    var k, v := KeyText(next.lead, next.key, next.trail), Print(next.value);
    PrintObject(before + [m], next, behind);
    PrintBeforeMore(before, m);
    NoColonInKey(next);
    RegroupNext(PrintBefore(before) + PrintMember(m), k, v, PrintBehind(behind), more);
    FieldAtMention(before, name, s, "," + k, v + end, key);
    BehindStarts(behind, more);
    ValueAtTree(next.value, end);
  }

  lemma NoColonInKey(m: Member)
    requires forall i :: 0 <= i < |m.key| ==> m.key[i] != ':'
    ensures var k := KeyText(m.lead, m.key, m.trail); forall i :: 0 <= i < |"," + k| ==> ("," + k)[i] != ':'
  {
    hide IsBody;
    SpaceHasNoColon(m.lead);
    SpaceHasNoColon(m.trail);
  }

  lemma RegroupNext(a: Bytes, k: Bytes, v: Bytes, b: Bytes, more: Bytes)
    ensures a + "," + (k + ":" + v) + b + more == a + ("," + k) + ":" + (v + (b + more))
  {
  }

  /** A JSON text none of whose literals ends with the quoted key has no such field. */
  lemma QuietHasNoField(t: Json, key: Key, more: Bytes)
    requires Quiet(t, key) && Lacks(more, '\"')
    ensures FieldOf(Print(t) + more, key) == None
  {
    hide Safe, Print, FieldOf, OccursAt;
    SafeTree(t, key);
    SafeWithoutQuotes(more, key);
    SafeConcat(Print(t), more, key);
    forall j: nat
      ensures !OccursAt(Print(t) + more, Needle(key), j)
    {
      SafeHasNoNeedle(Print(t) + more, key, j);
    }
    AbsentKeyHasNoField(Print(t) + more, key);
  }

  // ----- Exactly the quiet texts lack the quoted key -----

  ghost predicate Occurs(s: Bytes, key: Key) {
    exists j: nat :: OccursAt(s, Needle(key), j)
  }

  lemma OccursInside(a: Bytes, b: Bytes, c: Bytes, key: Key)
    requires Occurs(b, key)
    ensures Occurs(a + b + c, key)
  {
    hide Needle;
    var n := Needle(key);
    var j: nat :| OccursAt(b, n, j);
    assert (a + b + c)[|a| + j..|a| + j + |n|] == b[j..j + |n|];
    assert OccursAt(a + b + c, n, |a| + j);
  }

  lemma ClosedOccurs(body: Body, key: Key)
    requires Closes(body, key)
    ensures Occurs(Quoted(body), key)
  {
    hide IsBody;
    var s, n := Quoted(body), Needle(key);
    var open := "\"" + body;
    var j := |open| - |key| - 1;
    assert s == open + "\"";
    assert open[j..] == "\"" + key;
    assert s[j..j + |n|] == open[j..] + "\"" == n;
    assert OccursAt(s, n, j);
  }

  lemma {:induction false} LoudTree(t: Json, key: Key)
    requires !Quiet(t, key)
    ensures Occurs(Print(t), key)
    decreases t, 1
  {
    hide Occurs, PrintItems, PrintMembers, Closes, Quoted;
    match t
    case Str(body) => ClosedOccurs(body, key);
    case Arr(items, gap) =>
      LoudItems(items, key);
      OccursInside("[" + gap, PrintItems(items), "]", key);
      assert "[" + gap + PrintItems(items) + "]" == "[" + (gap + PrintItems(items)) + "]";
    case Obj(members, gap) =>
      LoudMembers(members, key);
      OccursInside("{" + gap, PrintMembers(members), "}", key);
      assert "{" + gap + PrintMembers(members) + "}" == "{" + (gap + PrintMembers(members)) + "}";
    case Padded(before, value, after) =>
      LoudTree(value, key);
      OccursInside(before, Print(value), after, key);
    case _ =>
  }

  lemma {:induction false} LoudItems(items: seq<Json>, key: Key)
    requires !QuietItems(items, key)
    ensures Occurs(PrintItems(items), key)
    decreases items, 0
  {
    hide Occurs, Print, Quiet;
    var sep: Bytes := if |items| == 1 then [] else ",";
    var p, q := Print(items[0]), PrintItems(items[1..]);
    if Quiet(items[0], key) {
      LoudItems(items[1..], key);
      OccursInside(p + sep, q, [], key);
      assert p + sep + q + [] == PrintItems(items);
    } else {
      LoudTree(items[0], key);
      OccursInside([], p, sep + q, key);
      assert [] + p + (sep + q) == PrintItems(items);
    }
  }

  lemma {:induction false} LoudMembers(members: seq<Member>, key: Key)
    requires !QuietMembers(members, key)
    ensures Occurs(PrintMembers(members), key)
    decreases members, 0
  {
    hide Occurs, Print, Quiet, Closes, Quoted;
    var m, sep: Bytes := members[0], if |members| == 1 then [] else ",";
    var v, q := Print(m.value), PrintMembers(members[1..]);
    if Closes(m.key, key) {
      ClosedOccurs(m.key, key);
      OccursInside(m.lead, Quoted(m.key), m.trail + (":" + (v + (sep + q))), key);
      RegroupKeyOf(m.lead, Quoted(m.key), m.trail, v, sep, q);
    } else if Quiet(m.value, key) {
      LoudMembers(members[1..], key);
      OccursInside(PrintMember(m) + sep, q, [], key);
      assert PrintMember(m) + sep + q + [] == PrintMembers(members);
    } else {
      LoudTree(m.value, key);
      OccursInside(KeyText(m.lead, m.key, m.trail) + ":", v, sep + q, key);
      RegroupValueOf(KeyText(m.lead, m.key, m.trail), v, sep, q);
    }
  }

  lemma RegroupKeyOf(l: Bytes, k: Bytes, t: Bytes, v: Bytes, sep: Bytes, q: Bytes)
    ensures l + k + (t + (":" + (v + (sep + q)))) == (l + k + t) + ":" + v + sep + q
  {
  }

  lemma RegroupValueOf(k: Bytes, v: Bytes, sep: Bytes, q: Bytes)
    ensures k + ":" + v + (sep + q) == k + ":" + v + sep + q
  {
  }

  /** A JSON text contains the quoted key exactly when one of its literals ends with it. */
  lemma QuotedKeyOccursIff(t: Json, key: Key)
    ensures Occurs(Print(t), key) <==> !Quiet(t, key)
  {
    hide Safe, Print, OccursAt;
    if Quiet(t, key) {
      SafeTree(t, key);
      forall j: nat
        ensures !OccursAt(Print(t), Needle(key), j)
      {
        SafeHasNoNeedle(Print(t), key, j);
      }
    } else {
      LoudTree(t, key);
    }
  }
}
