/**
 * The preferences file and the per-site Dark Mode list in it (src/preferences.cpp:21-68,
 * 76-91, 116-141). The file is its text; a missing file reads like an empty one.
 */
module Preferences {
  import opened Text

  type Values = map<Bytes, Bytes>

  const DARK: Bytes := "dark_mode_enabled_domains"
  const OLD_DARK: Bytes := "dark_mode"
  const OLD_DISABLED: Bytes := "dark_mode_disabled_domains"
  const VIDEO: Bytes := "compatibility_video_rendering_v3"

  // ----- Order -----

  /** `std::string`'s order: bytes compared from the left, a prefix first. */
  predicate Less(a: Bytes, b: Bytes) {
    b != [] && (a == [] || a[0] < b[0] || (a[0] == b[0] && Less(a[1..], b[1..])))
  }

  lemma {:induction false} LessIsTotal(a: Bytes, b: Bytes)
    ensures Less(a, b) || a == b || Less(b, a)
    ensures !(Less(a, b) && Less(b, a)) && !Less(a, a)
    decreases |a|
  {
    if a == [] {
    } else {
      LessIsTotal(a[1..], a[1..]);
      if b != [] && a[0] == b[0] {
        LessIsTotal(a[1..], b[1..]);
        assert a == [a[0]] + a[1..] && b == [b[0]] + b[1..];
      }
    }
  }

  lemma {:induction false} LessIsTransitive(a: Bytes, b: Bytes, c: Bytes)
    requires Less(a, b) && Less(b, c)
    ensures Less(a, c)
  {
    if a != [] && a[0] == b[0] && b[0] == c[0] { LessIsTransitive(a[1..], b[1..], c[1..]); }
  }

  /** Before another is exactly a proper prefix of it, and what has the smaller byte where they first differ. */
  lemma {:induction false} LessIff(a: Bytes, b: Bytes)
    ensures Less(a, b) <==> (|a| < |b| && a == b[..|a|]) || exists i :: FirstDifference(a, b, i) && a[i] < b[i]
  {
    if a != [] && b != [] && a[0] == b[0] {
      LessIff(a[1..], b[1..]);
      assert a == [a[0]] + a[1..] && b == [b[0]] + b[1..];
      assert |a| <= |b| ==> b[..|a|] == [b[0]] + b[1..][..|a| - 1];
      if i :| FirstDifference(a, b, i) && a[i] < b[i] {
        DifferenceLater(a, b, i - 1);
        assert a[1..][i - 1] < b[1..][i - 1];
      }
      if i :| FirstDifference(a[1..], b[1..], i) && a[1..][i] < b[1..][i] {
        DifferenceLater(a, b, i);
        assert a[i + 1] < b[i + 1];
      }
    } else if a != [] && b != [] && a[0] < b[0] {
      assert FirstDifference(a, b, 0);
    }
  }

  predicate FirstDifference(a: Bytes, b: Bytes, i: int) {
    0 <= i < |a| && i < |b| && a[i] != b[i] && forall j :: 0 <= j < i ==> a[j] == b[j]
  }

  lemma DifferenceLater(a: Bytes, b: Bytes, i: int)
    requires a != [] && b != [] && a[0] == b[0]
    ensures i >= 0 ==> (FirstDifference(a, b, i + 1) <==> FirstDifference(a[1..], b[1..], i))
  {
    if FirstDifference(a[1..], b[1..], i) {
      assert forall j :: 0 < j <= i ==> a[j] == a[1..][j - 1] && b[j] == b[1..][j - 1];
    }
  }

  ghost predicate Ascending(s: seq<Bytes>) {
    forall i, j :: 0 <= i < j < |s| ==> Less(s[i], s[j])
  }

  /** Sorting and dropping duplicates, one element at a time. */
  function Insert(s: seq<Bytes>, x: Bytes): seq<Bytes> {
    if s == [] || Less(x, s[0]) then [x] + s
    else if x == s[0] then s
    else [s[0]] + Insert(s[1..], x)
  }

  lemma {:induction false} InsertKeepsOrder(s: seq<Bytes>, x: Bytes)
    requires Ascending(s)
    ensures Ascending(Insert(s, x)) && forall y :: y in Insert(s, x) <==> y == x || y in s
  {
    if s == [] {
    } else if Less(x, s[0]) {
      forall i | 0 < i < |s|
        ensures Less(x, s[i])
      {
        LessIsTransitive(x, s[0], s[i]);
      }
    } else if x != s[0] {
      LessIsTotal(x, s[0]);
      InsertKeepsOrder(s[1..], x);
      var r := Insert(s[1..], x);
      forall i | 0 <= i < |r|
        ensures Less(s[0], r[i])
      {
        assert r[i] in r;
      }
      assert s == [s[0]] + s[1..];
    }
  }

  function SortUnique(s: seq<Bytes>): seq<Bytes> {
    if s == [] then [] else Insert(SortUnique(s[..|s| - 1]), s[|s| - 1])
  }

  lemma {:induction false} SortUniqueSorts(s: seq<Bytes>)
    ensures Ascending(SortUnique(s)) && forall y :: y in SortUnique(s) <==> y in s
  {
    if s == [] {
    } else {
      var n := |s| - 1;
      assert s == s[..n] + [s[n]];
      SortUniqueSorts(s[..n]);
      InsertKeepsOrder(SortUnique(s[..n]), s[n]);
    }
  }

  /** An ascending list is determined by its elements. */
  lemma {:induction false} AscendingIsUnique(s: seq<Bytes>, t: seq<Bytes>)
    requires Ascending(s) && Ascending(t) && forall y :: y in s <==> y in t
    ensures s == t
    decreases |s|
  {
    if s == [] {
      NoElements(t);
    } else {
      assert s[0] in s && t != [];
      assert t[0] in t && s[0] in t && t[0] in s;
      FirstIsLeast(s, t[0]);
      FirstIsLeast(t, s[0]);
      LessIsTotal(s[0], t[0]);
      RestLacksFirst(s);
      RestLacksFirst(t);
      AscendingIsUnique(s[1..], t[1..]);
    }
  }

  lemma NoElements(s: seq<Bytes>)
    ensures s != [] ==> exists y :: y in s
  {
    if s != [] { assert s[0] in s; }
  }

  lemma FirstIsLeast(s: seq<Bytes>, y: Bytes)
    requires Ascending(s) && y in s
    ensures y == s[0] || Less(s[0], y)
  {
  }

  lemma RestLacksFirst(s: seq<Bytes>)
    requires Ascending(s) && s != []
    ensures Ascending(s[1..]) && forall y :: y in s[1..] <==> y in s && y != s[0]
  {
    LessIsTotal(s[0], s[0]);
    assert s == [s[0]] + s[1..];
    forall y | y in s[1..]
      ensures y != s[0]
    {
      var i :| 0 <= i < |s[1..]| && s[1..][i] == y;
      assert Less(s[0], s[i + 1]);
    }
  }

  // ----- The file -----

  /** One line read: what stands before the first '=' is the key, the rest the value. */
  function Put(values: Values, line: Bytes): Values {
    var split := IndexOf(line, '=');
    if split == |line| then values else values[line[..split] := line[split + 1..]]
  }

  /** `getline` until it fails: a text that ends without a newline has a last line, one that ends with it has not. */
  function ReadInto(text: Bytes, values: Values): Values
    decreases |text|
  {
    if text == [] then values
    else
      var end := IndexOf(text, '\n');
      ReadInto(if end == |text| then [] else text[end + 1..], Put(values, text[..end]))
  }

  function Read(text: Bytes): Values { ReadInto(text, map[]) }

  /** The text behind its first line. */
  function RestOf(text: Bytes): (rest: Bytes)
    ensures text != [] ==> |rest| < |text|
  {
    var end := IndexOf(text, '\n');
    if end == |text| then [] else text[end + 1..]
  }

  lemma ReadLine(text: Bytes, values: Values)
    requires text != []
    ensures ReadInto(text, values) == ReadInto(RestOf(text), Put(values, text[..IndexOf(text, '\n')]))
  {
    hide IndexOf, Put;
  }

  method ReadPreferences(text: Bytes) returns (values: Values)
    ensures values == Read(text)
  {
    hide ReadInto, IndexOf;
    values := map[];
    var p := 0;
    while p < |text|
      invariant p <= |text|
      invariant Read(text) == ReadInto(text[p..], values)
    {
      ReadLine(text[p..], values);
      var end := IndexOf(text[p..], '\n');
      var line := text[p..][..end];
      RestAt(text, p);
      var split := IndexOf(line, '=');
      if split != |line| { values := values[line[..split] := line[split + 1..]]; }
      p := if p + end == |text| then |text| else p + end + 1;
    }
    assert text[p..] == [];
    ReadEnd(values);
  }

  lemma RestAt(text: Bytes, p: nat)
    requires p < |text|
    ensures var end := IndexOf(text[p..], '\n');
            RestOf(text[p..]) == text[if p + end == |text| then |text| else p + end + 1..]
  {
    hide IndexOf;
  }

  lemma ReadEnd(values: Values)
    ensures ReadInto([], values) == values
  {
  }

  // ----- What a file says -----

  /** The lines that `getline` gives: those that end with a newline, and the rest of the text if there is any. */
  function Lines(text: Bytes): seq<Bytes>
    decreases |text|
  {
    if text == [] then [] else [text[..IndexOf(text, '\n')]] + Lines(RestOf(text))
  }

  /** Every line with a newline behind it. */
  function Unlines(lines: seq<Bytes>): Bytes {
    if lines == [] then [] else lines[0] + "\n" + Unlines(lines[1..])
  }

  lemma {:induction false} LinesAreText(text: Bytes)
    ensures Unlines(Lines(text)) == if text == [] || text[|text| - 1] == '\n' then text else text + "\n"
    ensures forall i :: 0 <= i < |Lines(text)| ==> Lacks(Lines(text)[i], '\n')
    decreases |text|
  {
    hide IndexOf, RestOf, Lacks;
    if text == [] {
    } else {
      FirstLine(text);
      LinesAreText(RestOf(text));
      assert Lines(text)[1..] == Lines(RestOf(text));
      var line := text[..IndexOf(text, '\n')];
      if line == text {
        assert Lines(text)[1..] == [] && Unlines([]) == [];
      } else {
        EndOf(text, line, RestOf(text));
      }
    }
  }

  lemma FirstLine(text: Bytes)
    requires text != []
    ensures var line := text[..IndexOf(text, '\n')];
            && Lacks(line, '\n')
            && if line == text then RestOf(text) == [] && text[|text| - 1] != '\n'
               else text == line + "\n" + RestOf(text)
  {
    var end := IndexOf(text, '\n');
    if end < |text| {
      SplitAt(text, end);
    } else {
      assert text[..end] == text;
    }
  }

  lemma SplitAt(text: Bytes, end: nat)
    requires end < |text| && text[end] == '\n'
    ensures text == text[..end] + "\n" + text[end + 1..] && text[..end] != text
  {
    assert |text[..end]| == end;
  }

  lemma EndOf(text: Bytes, line: Bytes, rest: Bytes)
    requires text == line + "\n" + rest
    ensures text[|text| - 1] == if rest == [] then '\n' else rest[|rest| - 1]
    ensures rest != [] ==> line + "\n" + (rest + "\n") == text + "\n"
  {
  }

  /** A line that gives `key` a value: the key, which has no '=', then '='. */
  predicate Says(line: Bytes, key: Bytes) {
    Lacks(key, '=') && |key| < |line| && line[..|key|] == key && line[|key|] == '='
  }

  /** What the last line that speaks of `key` says behind its first '='. */
  function LastSaid(lines: seq<Bytes>, key: Bytes): Option<Bytes> {
    if lines == [] then None
    else
      match LastSaid(lines[1..], key)
      case Some(value) => Some(value)
      case None => if Says(lines[0], key) then Some(lines[0][|key| + 1..]) else None
  }

  function Lookup(values: Values, key: Bytes): Option<Bytes> {
    if key in values then Some(values[key]) else None
  }

  lemma PutSays(values: Values, line: Bytes, key: Bytes)
    ensures Lookup(Put(values, line), key) == if Says(line, key) then Some(line[|key| + 1..]) else Lookup(values, key)
  {
    if Says(line, key) {
      assert forall j :: 0 <= j < |key| ==> line[j] == key[j];
      IndexIs(line, '=', |key|);
    }
  }

  lemma {:induction false} ReadSays(text: Bytes, values: Values, key: Bytes)
    ensures Lookup(ReadInto(text, values), key)
            == match LastSaid(Lines(text), key)
               case Some(value) => Some(value)
               case None => Lookup(values, key)
    decreases |text|
  {
    hide Says, Put, IndexOf, Lookup;
    if text == [] {
      ReadEnd(values);
    } else {
      var line := text[..IndexOf(text, '\n')];
      ReadLine(text, values);
      PutSays(values, line, key);
      ReadSays(RestOf(text), Put(values, line), key);
      assert Lines(text)[1..] == Lines(RestOf(text));
    }
  }

  /**
   * A key has the value that the last line speaking of it gives, and is absent when no line
   * does; lines without '=' speak of no key.
   */
  lemma ReadGivesLast(text: Bytes, key: Bytes)
    ensures Lookup(Read(text), key) == LastSaid(Lines(text), key)
  {
    hide ReadInto, LastSaid, Lines;
    ReadSays(text, map[], key);
  }

  function PrintEntry(key: Bytes, value: Bytes): Bytes { key + "=" + value + "\n" }

  function PrintEntries(values: Values, keys: seq<Bytes>): Bytes
    requires forall k :: k in keys ==> k in values
  {
    if keys == [] then [] else PrintEntry(keys[0], values[keys[0]]) + PrintEntries(values, keys[1..])
  }

  /** The keys in the order a `std::map` iterates. */
  ghost function SortedKeys(keys: set<Bytes>): (r: seq<Bytes>)
    ensures Ascending(r) && forall k :: k in r <==> k in keys
  {
    if keys == {} then []
    else
      var k :| k in keys;
      InsertKeepsOrder(SortedKeys(keys - {k}), k);
      Insert(SortedKeys(keys - {k}), k)
  }

  ghost function Write(values: Values): Bytes { PrintEntries(values, SortedKeys(values.Keys)) }

  /** What a file can say: keys without '=' and line ends, values without line ends. */
  ghost predicate Printable(values: Values) {
    forall k :: k in values ==> Lacks(k, '=') && Lacks(k, '\n') && Lacks(values[k], '\n')
  }

  lemma PutIsPrintable(values: Values, line: Bytes)
    requires Printable(values) && Lacks(line, '\n')
    ensures Printable(Put(values, line))
  {
  }

  lemma {:induction false} ReadIsPrintable(text: Bytes, values: Values)
    requires Printable(values)
    ensures Printable(ReadInto(text, values))
    decreases |text|
  {
    if text == [] {
    } else {
      var end := IndexOf(text, '\n');
      PutIsPrintable(values, text[..end]);
      ReadIsPrintable(if end == |text| then [] else text[end + 1..], Put(values, text[..end]));
    }
  }

  lemma ReadEntry(key: Bytes, value: Bytes, rest: Bytes, values: Values)
    requires Lacks(key, '=') && Lacks(key, '\n') && Lacks(value, '\n')
    ensures ReadInto(PrintEntry(key, value) + rest, values) == ReadInto(rest, values[key := value])
  {
    var line := key + "=" + value;
    var text := PrintEntry(key, value) + rest;
    assert text == line + "\n" + rest;
    LacksConcat(key, "=", '\n');
    LacksConcat(key + "=", value, '\n');
    assert forall j :: 0 <= j < |line| ==> text[j] == line[j];
    IndexIs(text, '\n', |line|);
    assert text[..|line|] == line && text[|line| + 1..] == rest;
    IndexIs(line, '=', |key|);
    assert line[..|key|] == key && line[|key| + 1..] == value;
  }

  function Chosen(values: Values, keys: seq<Bytes>): Values
    requires forall k :: k in keys ==> k in values
  {
    map k | k in keys :: values[k]
  }

  lemma ChosenCons(values: Values, keys: seq<Bytes>, into: Values)
    requires keys != [] && forall k :: k in keys ==> k in values
    ensures into[keys[0] := values[keys[0]]] + Chosen(values, keys[1..]) == into + Chosen(values, keys)
  {
    assert keys == [keys[0]] + keys[1..];
  }

  lemma ChosenAll(values: Values, keys: seq<Bytes>)
    requires forall k :: k in keys <==> k in values
    ensures map[] + Chosen(values, keys) == values
  {
  }

  /** Reading printed entries puts them on top of what was there, in any order of distinct keys. */
  lemma {:induction false} ReadEntries(values: Values, keys: seq<Bytes>, into: Values)
    requires Printable(values) && forall k :: k in keys ==> k in values
    ensures ReadInto(PrintEntries(values, keys), into) == into + Chosen(values, keys)
  {
    hide Chosen, ReadInto, PrintEntry, Lacks;
    if keys == [] {
      ReadNothing(values, into);
    } else {
      ReadEntry(keys[0], values[keys[0]], PrintEntries(values, keys[1..]), into);
      ReadEntries(values, keys[1..], into[keys[0] := values[keys[0]]]);
      ChosenCons(values, keys, into);
    }
  }

  lemma ReadNothing(values: Values, into: Values)
    ensures ReadInto([], into) == into + Chosen(values, [])
  {
  }

  /** A written file has one line for each key, in key order, and nothing else. */
  lemma WrittenLines(values: Values)
    ensures Write(values) == Unlines(EntryLines(values, SortedKeys(values.Keys)))
  {
    EntriesAreLines(values, SortedKeys(values.Keys));
  }

  function EntryLines(values: Values, keys: seq<Bytes>): seq<Bytes>
    requires forall k :: k in keys ==> k in values
  {
    seq(|keys|, i requires 0 <= i < |keys| => keys[i] + "=" + values[keys[i]])
  }

  lemma {:induction false} EntriesAreLines(values: Values, keys: seq<Bytes>)
    requires forall k :: k in keys ==> k in values
    ensures PrintEntries(values, keys) == Unlines(EntryLines(values, keys))
  {
    if keys == [] {
    } else {
      EntriesAreLines(values, keys[1..]);
      assert EntryLines(values, keys)[1..] == EntryLines(values, keys[1..]);
    }
  }

  /** Writing and reading gives the same values exactly when a file can say them; so what was read survives. */
  lemma WriteThenRead(values: Values)
    ensures Read(Write(values)) == values <==> Printable(values)
  {
    hide ReadInto, PrintEntries, SortedKeys;
    ReadIsPrintable(Write(values), map[]);
    if Printable(values) {
      ReadEntries(values, SortedKeys(values.Keys), map[]);
      ChosenAll(values, SortedKeys(values.Keys));
    }
  }

  lemma ReadWriteReadIsStable(text: Bytes)
    ensures Read(Write(Read(text))) == Read(text)
  {
    ReadIsPrintable(text, map[]);
    WriteThenRead(Read(text));
  }

  /** The write loop: entries in key order. */
  method WritePreferences(values: Values) returns (text: Bytes)
    ensures text == Write(values)
  {
    text := [];
    var left := values.Keys;
    ghost var done: seq<Bytes> := [];
    while left != {}
      invariant left <= values.Keys && forall k :: k in done <==> k in values && k !in left
      invariant Ascending(done) && forall d, k :: d in done && k in left ==> Less(d, k)
      invariant text == PrintEntries(values, done)
    {
      LeastExists(left);
      var k :| k in left && forall other :: other in left && other != k ==> Less(k, other);
      PrintAppend(values, done, k);
      text := text + k + "=" + values[k] + "\n";
      left := left - {k};
      done := done + [k];
    }
    AscendingIsUnique(done, SortedKeys(values.Keys));
  }

  lemma LeastExists(keys: set<Bytes>)
    requires keys != {}
    ensures exists k :: k in keys && forall other :: other in keys && other != k ==> Less(k, other)
  {
    var s := SortedKeys(keys);
    var x :| x in keys;
    assert x in s;
    assert s[0] in keys;
    forall other | other in keys && other != s[0]
      ensures Less(s[0], other)
    {
      FirstIsLeast(s, other);
    }
  }

  lemma {:induction false} PrintAppend(values: Values, keys: seq<Bytes>, k: Bytes)
    requires k in values && forall x :: x in keys ==> x in values
    ensures (forall x :: x in keys + [k] ==> x in values) &&
            PrintEntries(values, keys + [k]) == PrintEntries(values, keys) + k + "=" + values[k] + "\n"
  {
    if keys == [] {
      assert keys + [k] == [k];
      assert [k][1..] == [];
    } else {
      assert (keys + [k])[1..] == keys[1..] + [k];
      PrintAppend(values, keys[1..], k);
      hide PrintEntry;
      RegroupAppend(PrintEntry(keys[0], values[keys[0]]), PrintEntries(values, keys[1..]), k, values[k]);
    }
  }

  lemma RegroupAppend(e: Bytes, p: Bytes, k: Bytes, v: Bytes)
    ensures e + (p + k + "=" + v + "\n") == (e + p) + k + "=" + v + "\n"
  {
  }

  // ----- The Dark Mode list -----

  /** The text before position `end`, unless it is empty. */
  function Piece(value: Bytes, end: nat): seq<Bytes>
    requires end <= |value|
  {
    if end == 0 then [] else [value[..end]]
  }

  /** The non-empty pieces between '|'. */
  function Pieces(value: Bytes): seq<Bytes>
    decreases |value|
  {
    var end := IndexOf(value, '|');
    if end == |value| then Piece(value, end) else Piece(value, end) + Pieces(value[end + 1..])
  }

  lemma FirstPiece(value: Bytes)
    ensures var end := IndexOf(value, '|');
            Pieces(value) == if end == |value| then Piece(value, end) else Piece(value, end) + Pieces(value[end + 1..])
  {
    hide IndexOf, Piece;
  }

  method SplitDomains(value: Bytes) returns (domains: seq<Bytes>)
    ensures domains == SortUnique(Pieces(value))
  {
    hide SortUnique, IndexOf, Pieces;
    domains := [];
    var start := 0;
    while true
      invariant start <= |value| && Pieces(value) == domains + Pieces(value[start..])
      decreases |value| - start
    {
      var rest := value[start..];
      var end := IndexOf(rest, '|');
      ghost var before := domains;
      if end != 0 { domains := domains + [rest[..end]]; }
      assert domains == before + Piece(rest, end);
      FirstPiece(rest);
      if end == |rest| {
        domains := SortUnique(domains);
        return;
      }
      assert rest[end + 1..] == value[start + end + 1..];
      AssocConcat(before, Piece(rest, end), Pieces(rest[end + 1..]));
      start := start + end + 1;
    }
  }

  lemma AssocConcat<T>(a: seq<T>, b: seq<T>, c: seq<T>)
    ensures a + (b + c) == a + b + c
  {
  }

  function Join(domains: seq<Bytes>): Bytes {
    if domains == [] then []
    else
      var before := Join(domains[..|domains| - 1]);
      (if before == [] then [] else before + "|") + domains[|domains| - 1]
  }

  method JoinDomains(domains: seq<Bytes>) returns (result: Bytes)
    ensures result == Join(domains)
  {
    result := [];
    for i := 0 to |domains|
      invariant result == Join(domains[..i])
    {
      assert domains[..i + 1][..i] == domains[..i];
      if result != [] { result := result + "|"; }
      result := result + domains[i];
    }
    assert domains[..|domains|] == domains;
  }

  /** A domain the list can hold. */
  predicate IsDomain(domain: Bytes) {
    domain != [] && Lacks(domain, '|') && Lacks(domain, '\n')
  }

  lemma {:induction false} PiecesAppend(value: Bytes, domain: Bytes)
    requires domain != [] && Lacks(domain, '|')
    ensures Pieces(value + "|" + domain) == Pieces(value) + [domain]
    decreases |value|
  {
    hide Piece;
    var all := value + "|" + domain;
    var end := IndexOf(value, '|');
    IndexIs(all, '|', end);
    SamePiece(all, value, end);
    if end == |value| {
      assert all[end + 1..] == domain;
      LastPiece(domain);
    } else {
      assert all[end + 1..] == value[end + 1..] + "|" + domain;
      PiecesAppend(value[end + 1..], domain);
      AssocConcat(Piece(value, end), Pieces(value[end + 1..]), [domain]);
    }
  }

  lemma SamePiece(a: Bytes, b: Bytes, end: nat)
    requires end <= |a| && end <= |b| && a[..end] == b[..end]
    ensures Piece(a, end) == Piece(b, end)
  {
  }

  lemma LastPiece(domain: Bytes)
    requires domain != [] && Lacks(domain, '|')
    ensures Pieces(domain) == [domain]
  {
    assert IndexOf(domain, '|') == |domain|;
    assert domain[..|domain|] == domain;
  }

  /** Splitting a joined list gives the list back. */
  lemma {:induction false} PiecesOfJoin(domains: seq<Bytes>)
    requires forall i :: 0 <= i < |domains| ==> domains[i] != [] && Lacks(domains[i], '|')
    ensures Pieces(Join(domains)) == domains && (domains != [] ==> Join(domains) != [])
  {
    hide Pieces, Lacks;
    if domains == [] {
      NoPieces();
    } else {
      var n := |domains| - 1;
      PiecesOfJoin(domains[..n]);
      assert domains == domains[..n] + [domains[n]];
      if n == 0 {
        assert domains[..0] == [] && Join([]) == [];
        assert Join(domains) == domains[0];
        LastPiece(domains[0]);
      } else {
        PiecesAppend(Join(domains[..n]), domains[n]);
      }
    }
  }

  lemma NoPieces()
    ensures Pieces([]) == []
  {
  }

  lemma {:induction false} PiecesAreDomains(value: Bytes)
    requires Lacks(value, '\n')
    ensures forall d :: d in Pieces(value) ==> IsDomain(d)
    decreases |value|
  {
    var end := IndexOf(value, '|');
    if end < |value| { PiecesAreDomains(value[end + 1..]); }
  }

  lemma {:induction false} JoinLacksNewline(domains: seq<Bytes>)
    requires forall i :: 0 <= i < |domains| ==> Lacks(domains[i], '\n')
    ensures Lacks(Join(domains), '\n')
  {
    if domains == [] {
    } else {
      JoinLacksNewline(domains[..|domains| - 1]);
    }
  }

  /** `dark_mode_enabled_domains`. */
  function DomainsOf(text: Bytes): seq<Bytes> {
    if DARK in Read(text) then SortUnique(Pieces(Read(text)[DARK])) else []
  }

  /** `dark_mode_enabled_for_domain`. */
  predicate IsDark(text: Bytes, domain: Bytes) { domain in DomainsOf(text) }

  /** `domain` stands at `i`, between two bars or between one and an end of the list. */
  predicate Listed(value: Bytes, domain: Bytes, i: int) {
    && OccursAt(value, domain, i)
    && (i == 0 || value[i - 1] == '|') && (i + |domain| == |value| || value[i + |domain|] == '|')
  }

  lemma ListedFirst(value: Bytes, domain: Bytes)
    requires domain != [] && Lacks(domain, '|')
    ensures Listed(value, domain, 0) <==> value[..IndexOf(value, '|')] == domain
  {
    var end := IndexOf(value, '|');
    if Listed(value, domain, 0) {
      assert value[0..|domain|] == domain;
      assert forall j :: 0 <= j < |domain| ==> value[j] == domain[j];
      assert end == |domain|;
      assert value[..end] == value[0..|domain|];
    }
    if value[..end] == domain {
      assert value[0..|domain|] == domain;
    }
  }

  /** A domain that is listed further on is listed behind the first bar. */
  lemma ListedLater(value: Bytes, domain: Bytes, end: nat, i: int)
    requires domain != [] && Lacks(domain, '|')
    requires end <= |value| && (end < |value| ==> value[end] == '|') && forall j :: 0 <= j < end ==> value[j] != '|'
    ensures 0 < i <= end ==> !Listed(value, domain, i)
    ensures end < |value| && i > end ==>
              (Listed(value, domain, i) <==> Listed(value[end + 1..], domain, i - end - 1))
  {
    if end < |value| && i > end { ListedBehind(value, domain, end + 1, i); }
  }

  lemma ListedBehind(value: Bytes, domain: Bytes, from: int, i: int)
    requires domain != [] && 0 < from <= i && from <= |value| && value[from - 1] == '|'
    ensures Listed(value, domain, i) <==> Listed(value[from..], domain, i - from)
  {
    var rest, n := value[from..], |domain|;
    if i + n <= |value| {
      assert rest[i - from..i - from + n] == value[i..i + n];
      assert i > from ==> rest[i - from - 1] == value[i - 1];
      assert i + n < |value| ==> rest[i - from + n] == value[i + n];
    }
  }

  lemma {:induction false} PieceIff(value: Bytes, domain: Bytes)
    requires domain != [] && Lacks(domain, '|')
    ensures domain in Pieces(value) <==> exists i :: Listed(value, domain, i)
    decreases |value|
  {
    hide Listed, IndexOf, Lacks, Pieces;
    var end := IndexOf(value, '|');
    FirstPiece(value);
    ListedFirst(value, domain);
    forall i
      ensures Listed(value, domain, i) ==> i == 0 || end < i <= |value|
    {
      ListedInside(value, domain, i);
      ListedLater(value, domain, end, i);
    }
    if end < |value| {
      var rest := value[end + 1..];
      PieceIff(rest, domain);
      forall i | Listed(value, domain, i) && i > end
        ensures Listed(rest, domain, i - end - 1)
      {
        ListedLater(value, domain, end, i);
      }
      forall i | Listed(rest, domain, i)
        ensures Listed(value, domain, i + end + 1)
      {
        ListedInside(rest, domain, i);
        ListedLater(value, domain, end, i + end + 1);
      }
    }
  }

  lemma ListedInside(value: Bytes, domain: Bytes, i: int)
    ensures Listed(value, domain, i) ==> 0 <= i && i + |domain| <= |value|
  {
  }

  /**
   * On every file a domain is dark exactly when it is not empty, has no bar, and stands between
   * bars or ends of the value that the last line speaking of the list gives.
   */
  lemma DarkIff(text: Bytes, domain: Bytes)
    ensures IsDark(text, domain) <==>
            && domain != [] && Lacks(domain, '|')
            && match LastSaid(Lines(text), "dark_mode_enabled_domains")
               case None => false
               case Some(value) => exists i :: Listed(value, domain, i)
  {
    hide ReadInto, LastSaid, Lines, Pieces, SortUnique, Listed, Lacks;
    ReadGivesLast(text, DARK);
    DomainsAreDomains(text);
    if DARK in Read(text) {
      var value := Read(text)[DARK];
      SortUniqueSorts(Pieces(value));
      if domain != [] && Lacks(domain, '|') { PieceIff(value, domain); }
    }
  }

  /** So for the other preference. */
  lemma VideoIff(text: Bytes)
    ensures IsVideo(text) <==> LastSaid(Lines(text), "compatibility_video_rendering_v3") == Some("1")
  {
    hide ReadInto, LastSaid, Lines;
    ReadGivesLast(text, VIDEO);
  }

  function Remove(s: seq<Bytes>, x: Bytes): seq<Bytes> {
    if s == [] then [] else if s[0] == x then s[1..] else [s[0]] + Remove(s[1..], x)
  }

  /** The list after a set: pushed or erased, then sorted. */
  function Changed(domains: seq<Bytes>, domain: Bytes, enabled: bool): seq<Bytes> {
    SortUnique(if enabled && domain !in domains then domains + [domain]
               else if !enabled then Remove(domains, domain)
               else domains)
  }

  /** The file after `set_dark_mode_enabled_for_domain`. */
  ghost function SetDark(text: Bytes, domain: Bytes, enabled: bool): Bytes {
    if domain == [] || !Lacks(domain, '|') then text
    else Write(Read(text)[DARK := Join(Changed(DomainsOf(text), domain, enabled))] - {OLD_DARK, OLD_DISABLED})
  }

  /** `set_compatibility_video_rendering`. */
  ghost function SetVideo(text: Bytes, enabled: bool): Bytes {
    Write(Read(text)[VIDEO := if enabled then "1" else "0"])
  }

  predicate IsVideo(text: Bytes) { VIDEO in Read(text) && Read(text)[VIDEO] == "1" }

  /** The file under the configuration directory. */
  class PreferencesFile {
    var text: Bytes

    constructor (text: Bytes)
      ensures this.text == text
    {
      this.text := text;
    }

    method DarkModeEnabledDomains() returns (domains: seq<Bytes>)
      ensures domains == DomainsOf(text)
    {
      var values := ReadPreferences(text);
      if DARK !in values { return []; }
      domains := SplitDomains(values[DARK]);
    }

    method DarkModeEnabledForDomain(domain: Bytes) returns (enabled: bool)
      ensures enabled == IsDark(text, domain)
    {
      var domains := DarkModeEnabledDomains();
      enabled := domain in domains;
    }

    method SetDarkModeEnabledForDomain(domain: Bytes, enabled: bool)
      modifies this
      ensures text == SetDark(old(text), domain, enabled)
    {
      hide ReadInto, SortUnique, Remove, Join, Write;
      if domain == [] || IndexOf(domain, '|') < |domain| { return; }
      var values := ReadPreferences(text);
      var domains := DarkModeEnabledDomains();
      var found := domain in domains;
      RemoveAbsent(domains, domain);
      if enabled && !found { domains := domains + [domain]; }
      if !enabled && found { domains := Remove(domains, domain); }
      domains := SortUnique(domains);
      var joined := JoinDomains(domains);
      values := values[DARK := joined];
      values := values - {OLD_DARK} - {OLD_DISABLED};
      assert values == Read(text)[DARK := joined] - {OLD_DARK, OLD_DISABLED};
      text := WritePreferences(values);
    }

    method CompatibilityVideoRendering() returns (enabled: bool)
      ensures enabled == IsVideo(text)
    {
      var values := ReadPreferences(text);
      enabled := VIDEO in values && values[VIDEO] == "1";
    }

    method SetCompatibilityVideoRendering(enabled: bool)
      modifies this
      ensures text == SetVideo(old(text), enabled)
    {
      var values := ReadPreferences(text);
      values := values[VIDEO := if enabled then "1" else "0"];
      text := WritePreferences(values);
    }
  }

  lemma {:induction false} RemoveAbsent(s: seq<Bytes>, x: Bytes)
    ensures x !in s ==> Remove(s, x) == s
  {
    if s != [] && x !in s {
      assert s == [s[0]] + s[1..];
      RemoveAbsent(s[1..], x);
    }
  }

  lemma {:induction false} RemoveElements(s: seq<Bytes>, x: Bytes)
    requires Ascending(s)
    ensures forall y :: y in Remove(s, x) <==> y in s && y != x
  {
    if s == [] {
    } else {
      assert s == [s[0]] + s[1..];
      RestLacksFirst(s);
      if s[0] != x { RemoveElements(s[1..], x); }
    }
  }

  lemma ChangedElements(domains: seq<Bytes>, domain: Bytes, enabled: bool)
    requires Ascending(domains)
    ensures var r := Changed(domains, domain, enabled);
            Ascending(r) && forall y :: y in r <==> if y == domain then enabled else y in domains
  {
    RemoveElements(domains, domain);
    SortUniqueSorts(domains + [domain]);
    SortUniqueSorts(Remove(domains, domain));
    SortUniqueSorts(domains);
  }

  lemma DomainsAreDomains(text: Bytes)
    ensures Ascending(DomainsOf(text)) && forall d :: d in DomainsOf(text) ==> IsDomain(d)
  {
    ReadIsPrintable(text, map[]);
    if DARK in Read(text) {
      PiecesAreDomains(Read(text)[DARK]);
      SortUniqueSorts(Pieces(Read(text)[DARK]));
    }
  }

  predicate IsPlainKey(k: Bytes) { Lacks(k, '=') && Lacks(k, '\n') }

  lemma DarkIsPlain()
    ensures IsPlainKey(DARK) && |DARK| == 25
  {
  }

  lemma OldDarkIsPlain()
    ensures IsPlainKey(OLD_DARK) && |OLD_DARK| == 9
  {
  }

  lemma OldDisabledIsPlain()
    ensures IsPlainKey(OLD_DISABLED) && |OLD_DISABLED| == 26
  {
  }

  lemma VideoIsPlain()
    ensures IsPlainKey(VIDEO) && |VIDEO| == 32
  {
  }

  lemma KeysArePlain()
    ensures forall k :: k in [DARK, OLD_DARK, OLD_DISABLED, VIDEO] ==> Lacks(k, '=') && Lacks(k, '\n')
    ensures DARK != OLD_DARK && DARK != OLD_DISABLED && DARK != VIDEO && VIDEO != OLD_DARK && VIDEO != OLD_DISABLED
  {
    hide Lacks;
    DarkIsPlain();
    OldDarkIsPlain();
    OldDisabledIsPlain();
    VideoIsPlain();
  }

  /** The values a set of a valid domain leaves in the file. */
  function DarkValues(text: Bytes, domain: Bytes, enabled: bool): Values {
    Read(text)[DARK := Join(Changed(DomainsOf(text), domain, enabled))] - {OLD_DARK, OLD_DISABLED}
  }

  lemma DomainEffect(text: Bytes, domain: Bytes, enabled: bool)
    requires IsDomain(domain)
    ensures var after := SetDark(text, domain, enabled);
            && Read(after) == DarkValues(text, domain, enabled)
            && DomainsOf(after) == Changed(DomainsOf(text), domain, enabled)
  {
    hide Changed, Pieces, Join, Read, Write, SortUnique, Lacks;
    var domains := Changed(DomainsOf(text), domain, enabled);
    DomainsAreDomains(text);
    ChangedElements(DomainsOf(text), domain, enabled);
    DarkValuesPrintable(text, domain, enabled);
    WriteThenRead(DarkValues(text, domain, enabled));
    KeysArePlain();
    AllDomains(domains);
    PiecesOfJoin(domains);
    SortUniqueOfAscending(domains);
  }

  /** The keys that a change of the list writes or erases. */
  predicate IsListKey(k: Bytes) {
    k == "dark_mode_enabled_domains" || k == "dark_mode" || k == "dark_mode_disabled_domains"
  }

  /**
   * Setting a domain without a newline, on any file: the query gives the value set, exactly
   * when the list can hold the domain; all other domains and all other keys are as they were.
   * An accepted set leaves the list sorted and removes the two keys of the old model, a
   * refused one leaves the file alone.
   */
  lemma SetDarkEffect(text: Bytes, domain: Bytes, enabled: bool)
    requires Lacks(domain, '\n')
    ensures var after := SetDark(text, domain, enabled);
            && (IsDark(after, domain) <==> enabled && IsDomain(domain))
            && (forall other :: other != domain ==> (IsDark(after, other) <==> IsDark(text, other)))
            && (forall k :: !IsListKey(k) ==>
                  (k in Read(after) <==> k in Read(text)) && (k in Read(text) ==> Read(after)[k] == Read(text)[k]))
            && Ascending(DomainsOf(after))
            && if IsDomain(domain) then
                 forall k :: IsListKey(k) && k in Read(after) ==> k == "dark_mode_enabled_domains"
               else after == text
  {
    hide Changed, Join, Read, Write, Lacks, Pieces, SortUnique;
    DomainsAreDomains(text);
    if IsDomain(domain) {
      KeysArePlain();
      DomainEffect(text, domain, enabled);
      ChangedElements(DomainsOf(text), domain, enabled);
    }
  }

  lemma AllDomains(domains: seq<Bytes>)
    requires forall d :: d in domains ==> IsDomain(d)
    ensures forall i :: 0 <= i < |domains| ==> domains[i] != [] && Lacks(domains[i], '|') && Lacks(domains[i], '\n')
  {
    forall i | 0 <= i < |domains|
      ensures IsDomain(domains[i])
    {
      assert domains[i] in domains;
    }
  }

  lemma SortUniqueOfAscending(s: seq<Bytes>)
    requires Ascending(s)
    ensures SortUnique(s) == s
  {
    SortUniqueSorts(s);
    AscendingIsUnique(SortUnique(s), s);
  }

  lemma DarkValuesPrintable(text: Bytes, domain: Bytes, enabled: bool)
    requires IsDomain(domain)
    ensures Printable(DarkValues(text, domain, enabled))
  {
    hide Changed, Join, ReadInto;
    var domains := Changed(DomainsOf(text), domain, enabled);
    ReadIsPrintable(text, map[]);
    DomainsAreDomains(text);
    ChangedElements(DomainsOf(text), domain, enabled);
    AllDomains(domains);
    JoinLacksNewline(domains);
    KeysArePlain();
    assert DARK in [DARK, OLD_DARK, OLD_DISABLED, VIDEO];
  }

  /** Turning a domain on is seen by the query exactly when the list can hold it. */
  lemma SetDarkIsSeenIff(text: Bytes, domain: Bytes)
    ensures IsDark(SetDark(text, domain, true), domain) <==> IsDomain(domain)
  {
    hide SetDark, DomainsOf, Lacks;
    DomainsAreDomains(SetDark(text, domain, true));
    if IsDomain(domain) { SetDarkEffect(text, domain, true); }
  }

  // ----- What a newline in a domain does -----

  /** A set of `domain` never changes the answer for another domain. */
  ghost predicate KeepsOthers(domain: Bytes) {
    forall text, other, enabled :: other != domain ==>
      (IsDark(SetDark(text, domain, enabled), other) <==> IsDark(text, other))
  }

  /** A file with nothing but a list. */
  ghost function ListFile(value: Bytes): Bytes { Write(map[DARK := value]) }

  lemma ListFileText(value: Bytes)
    ensures ListFile(value) == PrintEntry(DARK, value)
  {
    hide PrintEntry;
    var values: Values := map[DARK := value];
    OneKey(SortedKeys(values.Keys), DARK);
    assert [DARK][1..] == [];
    assert PrintEntries(values, []) == [];
  }

  lemma OneKey(s: seq<Bytes>, k: Bytes)
    requires Ascending(s) && forall x :: x in s <==> x == k
    ensures s == [k]
  {
    AscendingIsUnique(s, [k]);
  }

  lemma PlainList(domains: seq<Bytes>)
    requires domains != [] && Ascending(domains) && forall d :: d in domains ==> IsDomain(d)
    ensures Read(ListFile(Join(domains))) == map[DARK := Join(domains)]
    ensures DomainsOf(ListFile(Join(domains))) == domains
  {
    hide ReadInto, Write, Join, Pieces, SortUnique, Lacks;
    AllDomains(domains);
    JoinLacksNewline(domains);
    KeysArePlain();
    assert DARK in [DARK, OLD_DARK, OLD_DISABLED, VIDEO];
    WriteThenRead(map[DARK := Join(domains)]);
    PiecesOfJoin(domains);
    SortUniqueOfAscending(domains);
  }

  /** Turning on a domain that is accepted, between two others. */
  lemma SetBetween(x: Bytes, d: Bytes, y: Bytes)
    requires IsDomain(x) && IsDomain(y) && d != [] && Lacks(d, '|') && Less(x, d) && Less(d, y)
    ensures SetDark(ListFile(x + "|" + y), d, true) == ListFile(x + "|" + d + "|" + y)
    ensures DomainsOf(ListFile(x + "|" + y)) == [x, y]
  {
    hide ReadInto, Write, Pieces, SortUnique, Lacks, Less;
    LessIsTransitive(x, d, y);
    LessIsTotal(x, d);
    LessIsTotal(d, y);
    JoinTwo(x, y);
    JoinThree(x, d, y);
    PlainList([x, y]);
    SortUniqueSorts([x, y] + [d]);
    assert forall z :: z in [x, y] + [d] <==> z in [x, d, y];
    AscendingIsUnique(SortUnique([x, y] + [d]), [x, d, y]);
    KeysArePlain();
    assert map[DARK := x + "|" + y][DARK := x + "|" + d + "|" + y] - {OLD_DARK, OLD_DISABLED}
        == map[DARK := x + "|" + d + "|" + y];
  }

  lemma JoinTwo(x: Bytes, y: Bytes)
    requires x != []
    ensures Join([x, y]) == x + "|" + y
  {
    assert [x, y][..1] == [x] && [x][..0] == [];
    assert Join([x]) == [] + x == x;
  }

  lemma JoinThree(x: Bytes, y: Bytes, z: Bytes)
    requires x != []
    ensures Join([x, y, z]) == x + "|" + y + "|" + z
  {
    hide Join;
    JoinTwo(x, y);
    JoinLast([x, y], z);
    assert [x, y] + [z] == [x, y, z];
  }

  lemma JoinLast(s: seq<Bytes>, z: Bytes)
    requires Join(s) != []
    ensures Join(s + [z]) == Join(s) + "|" + z
  {
    assert (s + [z])[..|s|] == s;
  }

  /** A value that was read stood there before or is shorter than the text. */
  lemma {:induction false} ValueBound(text: Bytes, values: Values, k: Bytes)
    requires k in ReadInto(text, values)
    ensures (k in values && ReadInto(text, values)[k] == values[k]) || |ReadInto(text, values)[k]| < |text|
    decreases |text|
  {
    if text == [] {
    } else {
      ReadLine(text, values);
      ValueBound(RestOf(text), Put(values, text[..IndexOf(text, '\n')]), k);
    }
  }

  lemma {:induction false} PieceBound(value: Bytes, x: Bytes)
    requires x in Pieces(value)
    ensures |x| <= |value|
    decreases |value|
  {
    hide IndexOf, Pieces;
    var end := IndexOf(value, '|');
    FirstPiece(value);
    if x !in Piece(value, end) { PieceBound(value[end + 1..], x); }
  }

  lemma {:induction false} TwoPieces(value: Bytes, x: Bytes, y: Bytes)
    requires x in Pieces(value) && y in Pieces(value) && x != y
    ensures |x| + |y| < |value|
    decreases |value|
  {
    hide IndexOf, Pieces;
    var end := IndexOf(value, '|');
    FirstPiece(value);
    if end < |value| {
      var rest := value[end + 1..];
      if x in Piece(value, end) {
        PieceBound(rest, y);
      } else if y in Piece(value, end) {
        PieceBound(rest, x);
      } else {
        TwoPieces(rest, x, y);
      }
    }
  }

  /** A list whose middle domain has a newline is read back too short for both outer ones. */
  lemma CutList(x: Bytes, d: Bytes, y: Bytes)
    requires |x| == |y| == |d| + 1 && x != y && Lacks(x, '\n') && !Lacks(d, '\n')
    ensures var after := ListFile(x + "|" + d + "|" + y);
            !(IsDark(after, x) && IsDark(after, y))
  {
    hide Pieces, ReadInto, Lacks, SortUnique, Write, IndexOf;
    var list := x + "|" + d + "|" + y;
    ListFileText(list);
    var file := PrintEntry(DARK, list);
    if DARK in Read(file) {
      CutValue(x, d, y);
      var value := Read(file)[DARK];
      SortUniqueSorts(Pieces(value));
      if x in Pieces(value) && y in Pieces(value) {
        TwoPieces(value, x, y);
      }
    }
  }

  lemma CutValue(x: Bytes, d: Bytes, y: Bytes)
    requires Lacks(x, '\n') && !Lacks(d, '\n')
    ensures var after := Read(PrintEntry(DARK, x + "|" + d + "|" + y));
            DARK in after ==> |after[DARK]| <= |x| + |d| || |after[DARK]| <= |d| + |y|
  {
    hide ReadInto, Lacks;
    var p := IndexOf(d, '\n');
    NewlineAt(d);
    var first, rest := x + "|" + d[..p], d[p + 1..] + "|" + y + "\n";
    SplitList(x, d, y, p);
    KeysArePlain();
    assert DARK in [DARK, OLD_DARK, OLD_DISABLED, VIDEO];
    FirstLacksNewline(x, d[..p]);
    ReadEntry(DARK, first, rest, map[]);
    if DARK in ReadInto(rest, map[DARK := first]) {
      ValueBound(rest, map[DARK := first], DARK);
    }
  }

  lemma NewlineAt(d: Bytes)
    requires !Lacks(d, '\n')
    ensures var p := IndexOf(d, '\n'); p < |d| && d[p] == '\n' && Lacks(d[..p], '\n')
  {
  }

  lemma FirstLacksNewline(x: Bytes, a: Bytes)
    requires Lacks(x, '\n') && Lacks(a, '\n')
    ensures Lacks(x + "|" + a, '\n')
  {
    LacksConcat(x, "|", '\n');
    LacksConcat(x + "|", a, '\n');
  }

  lemma SplitList(x: Bytes, d: Bytes, y: Bytes, p: nat)
    requires p < |d| && d[p] == '\n'
    ensures PrintEntry(DARK, x + "|" + d + "|" + y)
            == PrintEntry(DARK, x + "|" + d[..p]) + (d[p + 1..] + "|" + y + "\n")
  {
    assert d == d[..p] + "\n" + d[p + 1..];
    RegroupList(DARK + "=", x, d[..p], d[p + 1..], y);
  }

  lemma RegroupList(k: Bytes, x: Bytes, a: Bytes, b: Bytes, y: Bytes)
    ensures k + (x + "|" + (a + "\n" + b) + "|" + y) + "\n" == (k + (x + "|" + a) + "\n") + (b + "|" + y + "\n")
  {
  }

  function Repeated(c: Byte, n: nat): (s: Bytes)
    ensures |s| == n && forall i :: 0 <= i < n ==> s[i] == c
  {
    seq(n, i => c)
  }

  lemma {:induction false} LeastBytes(n: nat, d: Bytes, i: nat)
    requires i < |d| < n && d[i] > 0 as char
    ensures Less(Repeated(0 as char, n), d)
  {
    if d[0] == 0 as char {
      assert Repeated(0 as char, n)[1..] == Repeated(0 as char, n - 1);
      LeastBytes(n - 1, d[1..], i - 1);
    }
  }

  lemma {:induction false} GreatestBytes(n: nat, d: Bytes, i: nat)
    requires i < |d| < n && d[i] < 255 as char
    ensures Less(d, Repeated(255 as char, n))
  {
    if d[0] == 255 as char {
      assert Repeated(255 as char, n)[1..] == Repeated(255 as char, n - 1);
      GreatestBytes(n - 1, d[1..], i - 1);
    }
  }

  lemma RepeatedIsDomain(c: Byte, n: nat)
    requires n > 0 && c != '|' && c != '\n'
    ensures IsDomain(Repeated(c, n))
  {
  }

  /** Two domains around a text with a newline, both longer than it. */
  lemma Outer(d: Bytes) returns (x: Bytes, y: Bytes)
    requires !Lacks(d, '\n')
    ensures IsDomain(x) && IsDomain(y) && Less(x, d) && Less(d, y) && x != y && |x| == |y| == |d| + 1
  {
    var n, i := |d| + 1, IndexOf(d, '\n');
    NewlineAt(d);
    x, y := Repeated(0 as char, n), Repeated(255 as char, n);
    assert x[0] != y[0];
    RepeatedIsDomain(0 as char, n);
    RepeatedIsDomain(255 as char, n);
    hide Less, Lacks, IndexOf, Repeated;
    LeastBytes(n, d, i);
    GreatestBytes(n, d, i);
  }

  /** The setter accepts a domain with a newline, and some other domain goes off with it. */
  lemma NewlineLosesOther(d: Bytes)
    requires d != [] && Lacks(d, '|') && !Lacks(d, '\n')
    ensures !KeepsOthers(d)
  {
    hide SetDark, DomainsOf, Lacks, Less, ListFile;
    var x, y := Outer(d);
    SetBetween(x, d, y);
    CutList(x, d, y);
    LessIsTotal(x, d);
    LessIsTotal(d, y);
    var text := ListFile(x + "|" + y);
    assert IsDark(text, x) && IsDark(text, y);
    assert !(IsDark(SetDark(text, d, true), x) && IsDark(SetDark(text, d, true), y));
  }

  /** So sets of a domain leave all others alone exactly when it is empty, has a '|', or has no newline. */
  lemma KeepsOthersIff(domain: Bytes)
    ensures KeepsOthers(domain) <==> domain == [] || !Lacks(domain, '|') || Lacks(domain, '\n')
  {
    if domain != [] && Lacks(domain, '|') && !Lacks(domain, '\n') {
      NewlineLosesOther(domain);
    } else {
      hide SetDark, IsDark;
      forall text, other, enabled | other != domain
        ensures IsDark(SetDark(text, domain, enabled), other) <==> IsDark(text, other)
      {
        if Lacks(domain, '\n') {
          SetDarkEffect(text, domain, enabled);
        } else {
          RefusedSet(text, domain, enabled);
        }
      }
    }
  }

  ghost predicate SameEntry(a: Bytes, b: Bytes, k: Bytes) {
    (k in Read(a) <==> k in Read(b)) && (k in Read(a) ==> Read(a)[k] == Read(b)[k])
  }

  /** A set of `domain` changes neither the answer for another domain nor any entry but the list's own. */
  ghost predicate KeepsRest(domain: Bytes) {
    KeepsOthers(domain) &&
    forall text, k, enabled :: !IsListKey(k) ==> SameEntry(SetDark(text, domain, enabled), text, k)
  }

  /** Other domains and other keys are left alone under the same condition. */
  lemma KeepsRestIff(domain: Bytes)
    ensures KeepsRest(domain) <==> domain == [] || !Lacks(domain, '|') || Lacks(domain, '\n')
  {
    hide SetDark, Lacks, Read, KeepsOthers, IsListKey;
    KeepsOthersIff(domain);
    if domain == [] || !Lacks(domain, '|') || Lacks(domain, '\n') {
      forall text, k, enabled | !IsListKey(k)
        ensures SameEntry(SetDark(text, domain, enabled), text, k)
      {
        if Lacks(domain, '\n') {
          SetDarkEffect(text, domain, enabled);
        } else {
          RefusedSet(text, domain, enabled);
        }
      }
    }
  }

  lemma RefusedSet(text: Bytes, domain: Bytes, enabled: bool)
    requires domain == [] || !Lacks(domain, '|')
    ensures SetDark(text, domain, enabled) == text
  {
  }

  lemma OnlyDomain(d: Bytes)
    ensures Changed([], d, true) == [d] && Join([d]) == d
  {
    var none: seq<Bytes> := [];
    assert d !in none && none + [d] == [d];
    SortUniqueSorts([d]);
    OneKey(SortUnique([d]), d);
    assert [d][..0] == [];
    assert Join([d]) == [] + d == d;
  }

  lemma SetInEmpty(d: Bytes)
    requires d != [] && Lacks(d, '|')
    ensures SetDark([], d, true) == ListFile(d)
  {
    hide Changed, Join, Write, SortUnique, Lacks;
    var empty: Values := map[];
    ReadEnd(empty);
    OnlyDomain(d);
    KeysArePlain();
    assert empty[DARK := d] - {OLD_DARK, OLD_DISABLED} == map[DARK := d];
  }

  /** Turned on in an empty file, it is written as it is: its first line becomes the list, the rest is read as lines. */
  lemma NewlineIsWritten(a: Bytes, b: Bytes)
    requires IsDomain(a) && Lacks(b, '|')
    ensures Read(SetDark([], a + "\n" + b, true)) == ReadInto(b + "\n", map[DARK := a])
  {
    var d := a + "\n" + b;
    hide ReadInto, Lacks, SetDark, ListFile;
    LacksNewline();
    LacksConcat(a, "\n", '|');
    LacksConcat(a + "\n", b, '|');
    KeysArePlain();
    SetInEmpty(d);
    ListFileText(d);
    RegroupEntry(DARK + "=", a, b);
    assert DARK in [DARK, OLD_DARK, OLD_DISABLED, VIDEO];
    ReadEntry(DARK, a, b + "\n", map[]);
  }

  lemma LacksNewline()
    ensures Lacks("\n", '|')
  {
  }

  lemma RegroupEntry(k: Bytes, a: Bytes, b: Bytes)
    ensures k + (a + "\n" + b) + "\n" == (k + a + "\n") + (b + "\n")
  {
  }

  /** The domain "a\nb" switches "a" on. */
  lemma NewlineSwitchesOther()
    ensures IsDark(SetDark([], "a\nb", true), "a") && !IsDark([], "a")
  {
    hide SetDark;
    var b: Bytes := "b" + "\n";
    NewlineIsWritten("a", "b");
    assert "a" + "\n" + "b" == "a\nb";
    ReadLine(b, map[DARK := "a"]);
    assert IndexOf(b, '\n') == 1 && b[..1] == "b" && RestOf(b) == [];
    assert IndexOf("b", '=') == 1;
    ReadEnd(map[DARK := "a"]);
    LastPiece("a");
    SortUniqueSorts(["a"]);
  }

  /** The domain "a\nk=v" makes a preference of its second line. */
  lemma NewlineAddsEntry()
    ensures Read(SetDark([], "a\nk=v", true)) == map[DARK := "a", "k" := "v"]
  {
    hide SetDark;
    NewlineIsWritten("a", "k=v");
    assert "a" + "\n" + "k=v" == "a\nk=v";
    assert PrintEntry("k", "v") + [] == "k=v" + "\n";
    ReadEntry("k", "v", [], map[DARK := "a"]);
    ReadEnd(map[DARK := "a", "k" := "v"]);
  }

  /** A value with a newline is not read back. */
  lemma NewlineIsLost()
    ensures Read(Write(map["k" := "a\nb"])) != map["k" := "a\nb"]
  {
    hide ReadInto, Write;
    var values: Values := map["k" := "a\nb"];
    assert values["k"][1] == '\n';
    WriteThenRead(values);
  }

  // ----- Any sequence of settings -----

  datatype Setting = Dark(domain: Bytes, enabled: bool) | Video(enabled: bool)

  ghost function Apply(text: Bytes, s: Setting): Bytes {
    match s
    case Dark(domain, enabled) => SetDark(text, domain, enabled)
    case Video(enabled) => SetVideo(text, enabled)
  }

  ghost function ApplyAll(text: Bytes, settings: seq<Setting>): Bytes {
    if settings == [] then text else Apply(ApplyAll(text, settings[..|settings| - 1]), settings[|settings| - 1])
  }

  /** The last value set for a domain that the list can hold, or what the file said before. */
  function LastDark(settings: seq<Setting>, domain: Bytes, before: bool): bool {
    if settings == [] || !IsDomain(domain) then before
    else
      var last := settings[|settings| - 1];
      if last.Dark? && last.domain == domain then last.enabled else LastDark(settings[..|settings| - 1], domain, before)
  }

  function LastVideo(settings: seq<Setting>, before: bool): bool {
    if settings == [] then before
    else
      var last := settings[|settings| - 1];
      if last.Video? then last.enabled else LastVideo(settings[..|settings| - 1], before)
  }

  lemma SetVideoEffect(text: Bytes, enabled: bool)
    ensures var after := SetVideo(text, enabled);
            && Read(after) == Read(text)[VIDEO := if enabled then "1" else "0"]
            && DomainsOf(after) == DomainsOf(text)
            && (IsVideo(after) <==> enabled)
  {
    hide ReadInto, Write, Pieces, SortUnique;
    ReadIsPrintable(text, map[]);
    KeysArePlain();
    assert VIDEO in [DARK, OLD_DARK, OLD_DISABLED, VIDEO];
    WriteThenRead(Read(text)[VIDEO := if enabled then "1" else "0"]);
  }

  /** A key that no setting writes. */
  predicate IsOtherKey(k: Bytes) { !IsListKey(k) && k != VIDEO }

  /**
   * After any sequence of settings, whatever the file held before, each query gives the last
   * value set: settings of other domains, refused ones, and those of the other preference do
   * not matter. Every key but the settings' own is as it was.
   */
  lemma {:induction false} SettingsAreRemembered(text: Bytes, settings: seq<Setting>, domain: Bytes, k: Bytes)
    requires forall i :: 0 <= i < |settings| && settings[i].Dark? ==> Lacks(settings[i].domain, '\n')
    ensures IsDark(ApplyAll(text, settings), domain) <==> LastDark(settings, domain, IsDark(text, domain))
    ensures IsVideo(ApplyAll(text, settings)) <==> LastVideo(settings, IsVideo(text))
    ensures IsOtherKey(k) ==> SameEntry(ApplyAll(text, settings), text, k)
  {
    hide IsDomain, SetDark, SetVideo, DomainsOf, IsVideo, Lacks, Read, IsOtherKey, SameEntry;
    if settings == [] {
      SameText(text, k);
    } else {
      var n := |settings| - 1;
      var before := ApplyAll(text, settings[..n]);
      SettingsAreRemembered(text, settings[..n], domain, k);
      NeverDark(before, domain);
      match settings[n] {
        case Dark(d, enabled) => DarkStep(before, d, enabled, domain, k);
        case Video(enabled) => VideoStep(before, enabled, domain, k);
      }
      SameThrough(ApplyAll(text, settings), before, text, k);
    }
  }

  lemma SameText(text: Bytes, k: Bytes)
    ensures SameEntry(text, text, k)
  {
  }

  lemma SameThrough(a: Bytes, b: Bytes, c: Bytes, k: Bytes)
    ensures SameEntry(a, b, k) && SameEntry(b, c, k) ==> SameEntry(a, c, k)
  {
    hide Read;
  }

  lemma NeverDark(text: Bytes, domain: Bytes)
    ensures IsDark(text, domain) ==> IsDomain(domain)
  {
    hide DomainsOf, IsDomain;
    DomainsAreDomains(text);
  }

  lemma DarkStep(text: Bytes, d: Bytes, enabled: bool, domain: Bytes, k: Bytes)
    requires Lacks(d, '\n')
    ensures var after := SetDark(text, d, enabled);
            && (IsDark(after, domain) <==> if d == domain then enabled && IsDomain(d) else IsDark(text, domain))
            && (IsVideo(after) <==> IsVideo(text))
            && (IsOtherKey(k) ==> SameEntry(after, text, k))
  {
    hide SetDark, Read, DomainsOf, Lacks;
    SetDarkEffect(text, d, enabled);
    KeysArePlain();
    assert !IsListKey(VIDEO);
  }

  lemma VideoStep(text: Bytes, enabled: bool, domain: Bytes, k: Bytes)
    ensures var after := SetVideo(text, enabled);
            && (IsDark(after, domain) <==> IsDark(text, domain))
            && (IsVideo(after) <==> enabled)
            && (IsOtherKey(k) ==> SameEntry(after, text, k))
  {
    hide SetVideo, Read, DomainsOf;
    SetVideoEffect(text, enabled);
  }
}
