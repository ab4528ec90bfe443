/**
 * JSON texts as trees: keys and strings are any literals the reader takes, with white space
 * anywhere between the tokens. The lemmas say where a quoted key can occur in such a text.
 */
module JsonTree {
  import opened Text
  import opened JsonText
  import opened JsonField

  predicate IsNumberByte(c: Byte) {
    '0' <= c <= '9' || c == '-' || c == '+' || c == '.' || c == 'e' || c == 'E'
  }

  type NumberText = s: Bytes | s != [] && forall i :: 0 <= i < |s| ==> IsNumberByte(s[i]) witness "0"

  type Space = s: Bytes | AllSpace(s)

  /** `gap` is the white space behind an opening bracket, `Padded` puts some around a value. */
  datatype Json =
    | Null
    | Bool(b: bool)
    | Number(text: NumberText)
    | Str(body: Body)
    | Arr(items: seq<Json>, gap: Space := [])
    | Obj(members: seq<Member>, gap: Space := [])
    | Padded(before: Space, value: Json, after: Space)

  datatype Member = Member(key: Body, value: Json, lead: Space := [], trail: Space := [])

  function Print(t: Json): Bytes
    decreases t, 1
  {
    match t
    case Null => "null"
    case Bool(b) => if b then "true" else "false"
    case Number(text) => text
    case Str(body) => Quoted(body)
    case Arr(items, gap) => "[" + (gap + PrintItems(items)) + "]"
    case Obj(members, gap) => "{" + (gap + PrintMembers(members)) + "}"
    case Padded(before, value, after) => before + Print(value) + after
  }

  function PrintItems(items: seq<Json>): Bytes
    decreases items, 0
  {
    if items == [] then []
    else Print(items[0]) + (if |items| == 1 then [] else ",") + PrintItems(items[1..])
  }

  function KeyText(lead: Space, key: Body, trail: Space): Bytes {
    lead + Quoted(key) + trail
  }

  function PrintMember(m: Member): Bytes
    decreases m, 0
  {
    KeyText(m.lead, m.key, m.trail) + ":" + Print(m.value)
  }

  function PrintMembers(members: seq<Member>): Bytes
    decreases members, 0
  {
    if members == [] then []
    else PrintMember(members[0]) + (if |members| == 1 then [] else ",") + PrintMembers(members[1..])
  }

  /** A value without the white space around it. */
  function Core(t: Json): (c: Json)
    ensures !c.Padded?
  {
    if t.Padded? then Core(t.value) else t
  }

  // ----- Keys and where they can be found -----

  /** A byte that is printed as itself. */
  predicate IsPlainByte(c: Byte) {
    c >= ' ' && c != '\"' && c != '\\'
  }

  /** A byte that is neither structure nor white space. */
  predicate IsKeyByte(c: Byte) {
    c > ' ' && c !in ['\"', '\\', '{', '}', '[', ']', ',', ':']
  }

  /** A key that is printed as itself and does not end like something that may stand before a string. */
  type Key = k: Bytes | k != [] && (forall i :: 0 <= i < |k| ==> IsPlainByte(k[i])) && IsKeyByte(k[|k| - 1])
    witness "k"

  predicate EndsWithKey(b: Bytes, key: Bytes) {
    |b| > |key| && b[|b| - |key| - 1..] == "\"" + key
  }

  /** A literal that ends with the quoted key. */
  predicate Closes(body: Bytes, key: Bytes) { EndsWithKey("\"" + body, key) }

  /** A string whose printed form ends with the quoted key. */
  predicate Mentions(v: Bytes, key: Bytes) {
    v == key || (|v| > |key| && v[|v| - |key| - 1..] == "\"" + key)
  }

  /** No literal of the tree ends with the quoted key. */
  predicate Quiet(t: Json, key: Bytes)
    decreases t, 1
  {
    match t
    case Str(body) => !Closes(body, key)
    case Arr(items, _) => QuietItems(items, key)
    case Obj(members, _) => QuietMembers(members, key)
    case Padded(_, value, _) => Quiet(value, key)
    case _ => true
  }

  predicate QuietItems(items: seq<Json>, key: Bytes)
    decreases items, 0
  {
    items == [] || (Quiet(items[0], key) && QuietItems(items[1..], key))
  }

  predicate QuietMembers(members: seq<Member>, key: Bytes)
    decreases members, 0
  {
    members == [] ||
    (!Closes(members[0].key, key) && Quiet(members[0].value, key) && QuietMembers(members[1..], key))
  }

  /** A quote behind the last byte of `key`. */
  predicate MayClose(b: Bytes, r: int, key: Key) {
    0 < r < |b| && b[r] == '\"' && b[r - 1] == key[|key| - 1]
  }

  /** The quotes at `x` and `r` enclose a piece of text that is not `key`. */
  predicate EnclosesOther(b: Bytes, x: int, r: int, key: Bytes) {
    0 <= x < r < |b| && b[x] == '\"' && Lacks(b[x + 1..r], '\"') && b[x + 1..r] != key
  }

  /** No quote of `b` closes a quoted `key`, even when `b` stands behind other text. */
  ghost predicate Safe(b: Bytes, key: Key) {
    forall r :: MayClose(b, r, key) ==> exists x :: EnclosesOther(b, x, r, key)
  }

  lemma SafeWithoutQuotes(b: Bytes, key: Key)
    requires Lacks(b, '\"')
    ensures Safe(b, key)
  {
  }

  lemma EnclosesBehind(a: Bytes, b: Bytes, x: int, r: int, key: Bytes)
    ensures EnclosesOther(a, x, r, key) ==> EnclosesOther(a + b, x, r, key)
    ensures EnclosesOther(b, x, r, key) ==> EnclosesOther(a + b, |a| + x, |a| + r, key)
  {
    var s := a + b;
    if EnclosesOther(a, x, r, key) {
      assert s[x + 1..r] == a[x + 1..r];
    }
    if EnclosesOther(b, x, r, key) {
      assert s[|a| + x + 1..|a| + r] == b[x + 1..r];
    }
  }

  lemma MayCloseIn(a: Bytes, b: Bytes, r: int, key: Key)
    requires a != [] && b != [] && b[0] == '\"' ==> !IsKeyByte(a[|a| - 1])
    ensures MayClose(a + b, r, key) ==> MayClose(a, r, key) || MayClose(b, r - |a|, key)
  {
  }

  lemma SafeConcat(a: Bytes, b: Bytes, key: Key)
    requires Safe(a, key) && Safe(b, key)
    requires a != [] && b != [] && b[0] == '\"' ==> !IsKeyByte(a[|a| - 1])
    ensures Safe(a + b, key)
  {
    hide EnclosesOther, MayClose;
    forall r | MayClose(a + b, r, key)
      ensures exists x :: EnclosesOther(a + b, x, r, key)
    {
      MayCloseIn(a, b, r, key);
      if MayClose(a, r, key) {
        var x :| EnclosesOther(a, x, r, key);
        EnclosesBehind(a, b, x, r, key);
      } else {
        var x :| EnclosesOther(b, x, r - |a|, key);
        EnclosesBehind(a, b, x, r - |a|, key);
      }
    }
  }

  lemma NeedleText(a: Bytes, key: Bytes, j: nat)
    requires OccursAt(a, Needle(key), j)
    ensures j + |key| + 1 < |a| && a[j] == '\"' && a[j + |key| + 1] == '\"' && a[j + 1..j + |key| + 1] == key
  {
    var n := Needle(key);
    var w := a[j..j + |n|];
    var inner := a[j + 1..j + |key| + 1];
    assert n[0] == '\"' && n[|key| + 1] == '\"';
    assert a[j] == w[0] && a[j + |key| + 1] == w[|key| + 1];
    assert forall i :: 0 <= i < |key| ==> n[1 + i] == key[i] && inner[i] == w[1 + i];
  }

  /** Between the quotes at `x` and `r` there is a quote, or they do not both enclose the key. */
  lemma EnclosesKeyOnly(a: Bytes, key: Key, j: nat, r: nat, x: int)
    requires r == j + |key| + 1 < |a| && a[j] == '\"' && a[j + 1..r] == key
    ensures !EnclosesOther(a, x, r, key)
  {
    if 0 <= x < j {
      assert a[x + 1..r][j - x - 1] == '\"';
    } else if j < x < r {
      assert a[x] == key[x - j - 1];
    }
  }

  lemma NeedleEnclosesKey(a: Bytes, key: Key, j: nat, r: nat)
    requires OccursAt(a, Needle(key), j) && r == j + |key| + 1
    ensures MayClose(a, r, key)
    ensures forall x :: !EnclosesOther(a, x, r, key)
  {
    hide OccursAt, Needle, EnclosesOther;
    NeedleText(a, key, j);
    assert a[r - 1] == a[j + 1..r][|key| - 1];
    forall x
      ensures !EnclosesOther(a, x, r, key)
    {
      EnclosesKeyOnly(a, key, j, r, x);
    }
  }

  lemma SafeHasNoNeedle(a: Bytes, key: Key, j: nat)
    requires Safe(a, key)
    ensures !OccursAt(a, Needle(key), j)
  {
    if OccursAt(a, Needle(key), j) {
      NeedleEnclosesKey(a, key, j, j + |key| + 1);
      assert false;
    }
  }

  /** A quoted key at the end of otherwise safe text is found there, not earlier. */
  lemma FoundAtEnd(a: Bytes, rest: Bytes, key: Key)
    requires Safe(a, key)
    requires EndsWithKey(a, key)
    ensures After(a + "\"" + rest, Needle(key)) == Some(rest)
  {
    var s := a + "\"" + rest;
    var n := Needle(key);
    var i := |a| - |key| - 1;
    assert s[i..i + |n|] == a[i..] + "\"" == n;
    forall j | 0 <= j < i
      ensures !OccursAt(s, n, j)
    {
      SafeHasNoNeedle(a, key, j);
      assert s[j..j + |n|] == a[j..j + |n|];
    }
    AfterFirst(s, n, i);
    assert s[i + |n|..] == rest;
  }

  // ----- Printed strings -----

  lemma EscapedQuotes(v: Bytes, k: nat) returns (i: nat)
    requires k < |Escape(v)| && Escape(v)[k] == '\"'
    ensures k > 0 && Escape(v)[k - 1] == '\\'
    ensures i < |v| && v[i] == '\"' && Escape(v)[k + 1..] == Escape(v[i + 1..])
  {
    var e := EscapeByte(v[0]);
    if k < |e| {
      assert e[k] == '\"';
      i := 0;
      assert Escape(v)[k + 1..] == Escape(v[1..]);
    } else {
      assert Escape(v)[k] == Escape(v[1..])[k - |e|];
      var j := EscapedQuotes(v[1..], k - |e|);
      i := j + 1;
      assert Escape(v)[k + 1..] == Escape(v[1..])[k - |e| + 1..];
      assert v[1..][j + 1..] == v[i + 1..];
    }
  }

  lemma EscapeKey(key: Key)
    ensures Escape(key) == key
  {
    EscapePlain(key);
  }

  lemma {:induction false} EscapePlain(v: Bytes)
    requires forall i :: 0 <= i < |v| ==> IsPlainByte(v[i])
    ensures Escape(v) == v
  {
    if v == [] {
    } else {
      assert IsPlainByte(v[0]) && EscapeByte(v[0]) == [v[0]];
      EscapePlain(v[1..]);
    }
  }

  /** A key is printed as itself. */
  function Plain(key: Key): (b: Body)
    ensures BodyValue(b) == key
  {
    EscapeKey(key);
    EscapeIsBody(key);
    key
  }

  /** Every quote in a body stands behind a backslash. */
  lemma {:induction false} BodyQuotes(b: Bytes, k: nat)
    requires IsBody(b) && k < |b| && b[k] == '\"'
    ensures k > 0 && b[k - 1] == '\\'
    decreases |b|
  {
    var n := UnitAt(b).value.1;
    if k < n {
      QuoteInUnit(b, k);
    } else {
      hide UnitAt;
      BodyQuotes(b[n..], k - n);
    }
  }

  lemma QuoteInUnit(b: Bytes, k: nat)
    requires b != [] && b[0] != '\"' && UnitAt(b).Some? && k < UnitAt(b).value.1 && b[k] == '\"'
    ensures k == 1 && b[0] == '\\'
  {
    if |b| > 2 { assert forall i :: 0 <= i < |b| - 2 ==> b[2..][i] == b[i + 2]; }
  }

  /** Up to its closing quote a literal closes no key. */
  lemma SafeOpenString(body: Body, key: Key)
    ensures Safe("\"" + body, key)
  {
    hide IsBody;
    var b := "\"" + body;
    forall r
      ensures !MayClose(b, r, key)
    {
      if 0 < r < |b| && b[r] == '\"' {
        BodyQuotes(body, r - 1);
        assert b[r - 1] == body[r - 2];
      }
    }
  }

  lemma EscapeOne(c: Byte)
    ensures Escape([c]) == EscapeByte(c)
  {
    assert Escape([c][1..]) == [];
  }

  lemma EscapeQuotedKey(u: Bytes, key: Key)
    ensures Escape(u + ("\"" + key)) == Escape(u) + "\\" + ("\"" + key)
  {
    hide Escape;
    EscapeOne('\"');
    EscapeKey(key);
    EscapeConcat("\"", key);
    EscapeConcat(u, "\"" + key);
    assert Escape(u) + ("\\\"" + key) == Escape(u) + "\\" + ("\"" + key);
  }

  lemma EndsWith(a: Bytes, key: Bytes)
    ensures EndsWithKey(a + ("\"" + key), key)
  {
  }

  lemma MentionClosesKey(v: Bytes, key: Key)
    requires Mentions(v, key)
    ensures EndsWithKey("\"" + Escape(v), key)
  {
    hide Escape, EndsWithKey;
    if v == key {
      EscapeKey(key);
      EndsWith([], key);
      assert [] + ("\"" + key) == "\"" + Escape(v);
    } else {
      var u := v[..|v| - |key| - 1];
      assert v == u + ("\"" + key);
      EscapeQuotedKey(u, key);
      EndsWith("\"" + Escape(u) + "\\", key);
      assert "\"" + Escape(u) + "\\" + ("\"" + key) == "\"" + Escape(v);
    }
  }

  lemma ClosedKeyText(e: Bytes, key: Bytes)
    requires EndsWithKey("\"" + e, key)
    ensures |e| >= |key| && e[|e| - |key|..] == key && (|e| > |key| ==> e[|e| - |key| - 1] == '\"')
  {
    var n, b := |e| - |key|, "\"" + e;
    assert b[n..][1..] == e[n..];
    assert b[n..][0] == '\"';
  }

  lemma ClosedKeyIsMentioned(v: Bytes, key: Key)
    requires EndsWithKey("\"" + Escape(v), key)
    ensures Mentions(v, key)
  {
    hide Escape, EndsWithKey;
    var n := |Escape(v)| - |key|;
    EscapeKey(key);
    ClosedKeyText(Escape(v), key);
    if n == 0 {
      EscapeInjective(v, key);
    } else {
      var i := EscapedQuotes(v, n - 1);
      EscapeInjective(v[i + 1..], key);
      assert v[i..] == "\"" + key;
    }
  }

  ghost function LastQuote(b: Bytes, r: nat): (x: nat)
    requires 0 < r <= |b| && b[0] == '\"'
    ensures x < r && b[x] == '\"' && Lacks(b[x + 1..r], '\"')
  {
    if b[r - 1] == '\"' then r - 1
    else
      var x := LastQuote(b, r - 1);
      assert b[x + 1..r] == b[x + 1..r - 1] + [b[r - 1]];
      x
  }

  /** Closing a string that does not end with the key closes no key. */
  lemma SafeClosed(a: Bytes, key: Key)
    requires Safe(a, key) && a != [] && a[0] == '\"' && !EndsWithKey(a, key)
    ensures Safe(a + "\"", key)
  {
    var b := a + "\"";
    forall r | MayClose(b, r, key)
      ensures exists x :: EnclosesOther(b, x, r, key)
    {
      if r < |a| {
        assert MayClose(a, r, key);
        var x :| EnclosesOther(a, x, r, key);
        assert b[x + 1..r] == a[x + 1..r];
        assert EnclosesOther(b, x, r, key);
      } else {
        var x := LastQuote(b, r);
        assert b[x + 1..r] == a[x + 1..];
        assert a[x..] == "\"" + a[x + 1..];
        assert EnclosesOther(b, x, r, key);
      }
    }
  }

  /** The literal printed for a string ends with the quoted key exactly when the string mentions it. */
  lemma ClosesText(v: Bytes, key: Key)
    ensures Closes(Encoded(v), key) <==> Mentions(v, key)
  {
    hide EndsWithKey, Mentions, Escape;
    if EndsWithKey("\"" + Escape(v), key) {
      ClosedKeyIsMentioned(v, key);
    } else if Mentions(v, key) {
      MentionClosesKey(v, key);
    }
  }

  lemma SafeString(body: Body, key: Key)
    requires !Closes(body, key)
    ensures Safe(Quoted(body), key)
  {
    hide Safe, EndsWithKey, IsBody;
    SafeOpenString(body, key);
    SafeClosed("\"" + body, key);
  }
}
