/** The raw-text accessor `field` (src/agent_rpc.cpp:30-41). */
module JsonField {
  import opened Text
  import opened JsonText

  // ----- field -----

  function Needle(key: Bytes): Bytes { "\"" + key + "\"" }

  /** Number of bytes the depth scan runs over before it stops. */
  function ScanLength(s: Bytes, depth: nat, quote: bool, esc: bool): (n: nat)
    ensures n <= |s|
  {
    if s == [] then 0
    else
      var c := s[0];
      if quote then
        1 + ScanLength(s[1..], depth, esc || c != '\"', !esc && c == '\\')
      else if c == '\"' then 1 + ScanLength(s[1..], depth, true, esc)
      else if c == '{' || c == '[' then 1 + ScanLength(s[1..], depth + 1, false, esc)
      else if c == '}' || c == ']' then
        if depth == 0 then 0 else 1 + ScanLength(s[1..], depth - 1, false, esc)
      else if c == ',' && depth == 0 then 0
      else 1 + ScanLength(s[1..], depth, false, esc)
  }

  /** The value that starts in `s`, after optional white space. */
  function ValueAt(s: Bytes): Option<Bytes> {
    var v := SkipSpace(s);
    if v == [] then None
    else if v[0] == '\"' then
      match ReadString(v)
      case None => None
      case Some((text, _)) => Some(text)
    else Some(TrimEnd(v[..ScanLength(v, 0, false, false)]))
  }

  /** The text behind the first colon behind the first occurrence of the quoted key. */
  function ValueText(json: Bytes, key: Bytes): Option<Bytes> {
    match After(json, Needle(key))
    case None => None
    case Some(r) => After(r, ":")
  }

  function FieldOf(json: Bytes, key: Bytes): Option<Bytes> {
    match ValueText(json, key)
    case None => None
    case Some(v) => ValueAt(v)
  }

  /** The scan loop of `field`, from `json[p]` to the byte that ends the value. */
  method ScanValue(json: Bytes, p: nat) returns (e: nat)
    requires p <= |json|
    ensures e == p + ScanLength(json[p..], 0, false, false)
  {
    e := p;
    var depth, quote, esc := 0 as nat, false, false;
    while e < |json|
      invariant p <= e <= |json|
      invariant ScanLength(json[p..], 0, false, false) == e - p + ScanLength(json[e..], depth, quote, esc)
    {
      var c := json[e];
      assert json[e..][1..] == json[e + 1..];
      if quote {
        if esc { esc := false; }
        else if c == '\\' { esc := true; }
        else if c == '\"' { quote := false; }
      } else if c == '\"' {
        quote := true;
      } else if c == '{' || c == '[' {
        depth := depth + 1;
      } else if c == '}' || c == ']' {
        if depth == 0 { break; }
        depth := depth - 1;
      } else if c == ',' && depth == 0 {
        break;
      }
      e := e + 1;
    }
  }

  method SkipSpaceFrom(json: Bytes, start: nat) returns (p: nat)
    requires start <= |json|
    ensures start <= p <= |json| && json[p..] == SkipSpace(json[start..])
  {
    p := start;
    while p < |json| && IsSpace(json[p])
      invariant start <= p <= |json|
      invariant SkipSpace(json[start..]) == SkipSpace(json[p..])
    {
      assert json[p..][1..] == json[p + 1..];
      p := p + 1;
    }
  }

  method TrimEndFrom(json: Bytes, p: nat, end: nat) returns (e: nat)
    requires p <= end <= |json|
    ensures p <= e <= end && json[p..e] == TrimEnd(json[p..end])
  {
    e := end;
    while e > p && IsSpace(json[e - 1])
      invariant p <= e <= end
      invariant TrimEnd(json[p..end]) == TrimEnd(json[p..e])
    {
      assert json[p..e][..e - p - 1] == json[p..e - 1];
      e := e - 1;
    }
  }

  /** The part of `field` behind the colon. */
  method ReadValue(json: Bytes, start: nat) returns (r: Option<Bytes>)
    requires start <= |json|
    ensures r == ValueAt(json[start..])
  {
    var p := SkipSpaceFrom(json, start);
    if p >= |json| { return None; }
    if json[p] == '\"' {
      r, p := ReadJsonString(json, p);
      return;
    }
    var e := ScanValue(json, p);
    assert json[p..e] == json[p..][..e - p];
    e := TrimEndFrom(json, p, e);
    r := Some(json[p..e]);
  }

  /** The part of `field` up to the colon. */
  method FindValue(json: Bytes, key: Bytes) returns (p: Option<nat>)
    ensures p.Some? ==> p.value <= |json|
    ensures ValueText(json, key) == if p.None? then None else Some(json[p.value..])
  {
    var needle := Needle(key);
    var found := Find(json, needle, 0);
    if found.None? { return None; }
    var from := found.value + |needle|;
    FindInRest(json, ":", from);
    found := Find(json, ":", from);
    if found.None? { return None; }
    p := Some(found.value + 1);
  }

  /** `field`: the cursor code of the source, proved to compute `FieldOf`. */
  method Field(json: Bytes, key: Bytes) returns (r: Option<Bytes>)
    ensures r == FieldOf(json, key)
  {
    var p := FindValue(json, key);
    if p.None? { return None; }
    r := ReadValue(json, p.value);
  }

  // ----- What the accessor answers -----

  /** A text without the quoted key has no such field. */
  lemma AbsentKeyHasNoField(json: Bytes, key: Bytes)
    requires forall j: nat :: !OccursAt(json, Needle(key), j)
    ensures FieldOf(json, key) == None
  {
    FindIsFirst(json, Needle(key), 0);
  }

  /**
   * A field is looked for behind the first quoted key and the first colon behind that. There is
   * none when no colon follows, when nothing but white space follows the colon, or when what
   * follows starts with a quote and cannot be read as a literal.
   */
  lemma FieldIsBehindFirstColon(json: Bytes, key: Bytes, i: nat, colon: nat)
    requires OccursAt(json, Needle(key), i) && forall j :: 0 <= j < i ==> !OccursAt(json, Needle(key), j)
    requires i + |key| + 2 <= colon <= |json| && (colon < |json| ==> json[colon] == ':')
    requires forall j :: i + |key| + 2 <= j < colon ==> json[j] != ':'
    ensures colon == |json| ==> FieldOf(json, key) == None
    ensures colon < |json| ==> FieldOf(json, key) == ValueAt(json[colon + 1..])
  {
    hide ValueAt;
    AfterFirst(json, Needle(key), i);
    var rest := json[i + |key| + 2..];
    FindIsFirst(rest, ":", 0);
    if colon < |json| {
      var k := colon - (i + |key| + 2);
      assert rest[k..k + 1] == ":";
      forall j | 0 <= j < k
        ensures !OccursAt(rest, ":", j)
      {
        assert rest[j..j + 1][0] == json[i + |key| + 2 + j];
      }
      AfterFirst(rest, ":", k);
    } else {
      forall j | 0 <= j
        ensures !OccursAt(rest, ":", j)
      {
        assert j + 1 <= |rest| ==> rest[j..j + 1][0] == json[i + |key| + 2 + j];
      }
    }
  }

  lemma NoValue(space: Bytes, rest: Bytes)
    requires AllSpace(space)
    ensures ValueAt(space) == None
    ensures rest != [] && rest[0] == '\"' && ReadString(rest) == None ==> ValueAt(space + rest) == None
  {
    hide ReadString;
    SkipSpaceOver(space, []);
    assert space + [] == space;
    SkipSpaceOver(space, rest);
  }

  /** A blank and the control bytes from tab to carriage return are skipped; any other byte starts a value. */
  lemma SpaceIsSkipped(c: Byte, s: Bytes)
    ensures c as int in {9, 10, 11, 12, 13, 32} ==> ValueAt([c] + s) == ValueAt(s)
    ensures c as int !in {9, 10, 11, 12, 13, 32} && c != '\"' ==> ValueAt([c] + s).Some?
  {
    hide ScanLength, ReadString, TrimEnd;
    assert ([c] + s)[1..] == s;
  }

  // ----- Where a value that is not a literal ends -----

  /** Where the scan is in a text: how deep, in a literal or not, and behind a backslash or not. */
  datatype Place = Place(depth: int, literal: bool, escaped: bool)

  /** The place behind one more byte. */
  function Passed(at: Place, c: Byte): Place {
    if at.literal then
      if at.escaped then at.(escaped := false)
      else at.(literal := c != '\"', escaped := c == '\\')
    else if c == '\"' then at.(literal := true)
    else if c in ['{', '['] then at.(depth := at.depth + 1)
    else if c in ['}', ']'] then at.(depth := at.depth - 1)
    else at
  }

  /** The place behind all of `s`. */
  function PlaceAfter(s: Bytes): Place {
    if s == [] then Place(0, false, false) else Passed(PlaceAfter(s[..|s| - 1]), s[|s| - 1])
  }

  /** Outside literals and brackets: a comma, or a bracket that closes one from before the text. */
  predicate EndsValue(s: Bytes, i: nat)
    requires i < |s|
  {
    !PlaceAfter(s[..i]).literal && PlaceAfter(s[..i]).depth == 0 && s[i] in [',', '}', ']']
  }

  predicate IsScanState(at: Place) { at.depth >= 0 && (at.escaped ==> at.literal) }

  lemma ScanInLiteral(s: Bytes, depth: nat, escaped: bool)
    requires s != []
    ensures ScanLength(s, depth, true, escaped)
            == 1 + ScanLength(s[1..], depth, escaped || s[0] != '\"', !escaped && s[0] == '\\')
  {
  }

  lemma ScanOutside(s: Bytes, depth: nat)
    requires s != [] && (depth > 0 || s[0] !in [',', '}', ']'])
    ensures var c, rest := s[0], s[1..];
            ScanLength(s, depth, false, false)
            == 1 + if c == '\"' then ScanLength(rest, depth, true, false)
                   else if c in ['{', '['] then ScanLength(rest, depth + 1, false, false)
                   else if c in ['}', ']'] then ScanLength(rest, depth - 1, false, false)
                   else ScanLength(rest, depth, false, false)
  {
  }

  lemma ScanOne(s: Bytes, at: Place)
    requires s != [] && IsScanState(at) && (at.literal || at.depth > 0 || s[0] !in [',', '}', ']'])
    ensures var next := Passed(at, s[0]);
            && IsScanState(next)
            && ScanLength(s, at.depth, at.literal, at.escaped)
               == 1 + ScanLength(s[1..], next.depth, next.literal, next.escaped)
  {
    hide ScanLength;
    if at.literal {
      ScanInLiteral(s, at.depth, at.escaped);
    } else {
      ScanOutside(s, at.depth);
    }
  }

  lemma {:induction false} ScanFrom(s: Bytes, n: nat)
    requires n <= |s| && forall i :: 0 <= i < n ==> !EndsValue(s, i)
    ensures var at := PlaceAfter(s[..n]);
            && IsScanState(at)
            && ScanLength(s, 0, false, false) == n + ScanLength(s[n..], at.depth, at.literal, at.escaped)
  {
    hide ScanLength, Passed;
    if n == 0 {
      assert s[0..] == s;
    } else {
      ScanFrom(s, n - 1);
      assert s[..n][..n - 1] == s[..n - 1] && s[n - 1..][1..] == s[n..];
      assert !EndsValue(s, n - 1);
      ScanOne(s[n - 1..], PlaceAfter(s[..n - 1]));
    }
  }

  /** The scan stops at the first byte that ends the value, and else runs to the end of the text. */
  lemma ScanStopsAtFirst(s: Bytes, n: nat)
    requires n <= |s| && forall i :: 0 <= i < n ==> !EndsValue(s, i)
    requires n < |s| ==> EndsValue(s, n)
    ensures ScanLength(s, 0, false, false) == n
  {
    ScanFrom(s, n);
  }

  /** So a value that is no literal is the text up to there, without the white space around it. */
  lemma ScannedValue(space: Bytes, s: Bytes, n: nat)
    requires AllSpace(space) && s != [] && s[0] != '\"' && !IsSpace(s[0])
    requires n <= |s| && (forall i :: 0 <= i < n ==> !EndsValue(s, i)) && (n < |s| ==> EndsValue(s, n))
    ensures ValueAt(space + s) == Some(TrimEnd(s[..n]))
  {
    hide ScanLength, TrimEnd;
    SkipSpaceOver(space, s);
    ScanStopsAtFirst(s, n);
  }
}
