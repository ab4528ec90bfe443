/** JSON string literals: the escaper and the lenient reader of src/agent_rpc.cpp. */
module JsonText {
  import opened Text

  // ----- The printer -----

  function LowerHex(n: nat): Byte
    requires n < 16
  {
    if n < 10 then ('0' as int + n) as char else ('a' as int + (n - 10)) as char
  }

  function EscapeByte(c: Byte): Bytes {
    if c == '\\' then "\\\\"
    else if c == '\"' then "\\\""
    else if c == '\n' then "\\n"
    else if c == '\r' then "\\r"
    else if c == '\t' then "\\t"
    else if c < ' ' then "\\u00" + [LowerHex(c as int / 16), LowerHex(c as int % 16)]
    else [c]
  }

  function Escape(v: Bytes): Bytes {
    if v == [] then [] else EscapeByte(v[0]) + Escape(v[1..])
  }

  function Quoted(body: Bytes): Bytes { "\"" + body + "\"" }

  function JsonString(v: Bytes): Bytes { Quoted(Escape(v)) }

  lemma EscapeConcat(a: Bytes, b: Bytes)
    ensures Escape(a + b) == Escape(a) + Escape(b)
  {
    if a == [] {
      assert a + b == b;
    } else {
      assert (a + b)[1..] == a[1..] + b;
      EscapeConcat(a[1..], b);
    }
  }

  /** `json_escape` walks the bytes once, appending to its output. */
  method JsonEscape(v: Bytes) returns (o: Bytes)
    ensures o == Escape(v)
  {
    o := [];
    for i := 0 to |v|
      invariant o == Escape(v[..i])
    {
      assert v[..i + 1] == v[..i] + [v[i]];
      EscapeConcat(v[..i], [v[i]]);
      assert Escape([v[i]]) == EscapeByte(v[i]) + Escape([]);
      o := o + EscapeByte(v[i]);
    }
    assert v[..|v|] == v;
  }

  // ----- UTF-8 -----

  /** The bytes the `\u` branch appends for a four-digit code point. */
  function EncodeUtf8(cp: nat): (r: Bytes)
    requires cp < 0x10000
  {
    if cp < 0x80 then [cp as char]
    else if cp < 0x800 then [(0xC0 + cp / 64) as char, (0x80 + cp % 64) as char]
    else [(0xE0 + cp / 4096) as char, (0x80 + cp / 64 % 64) as char, (0x80 + cp % 64) as char]
  }

  predicate IsTail(c: Byte) { 0x80 <= c as int <= 0xBF }

  predicate IsSurrogate(cp: nat) { 0xD800 <= cp <= 0xDFFF }

  /**
   * The first character of a UTF-8 text of at most three bytes a character, shortest form
   * only, as section 3 of RFC 3629 lays it out; surrogates are read like other characters.
   */
  function DecodeWide(s: Bytes): Option<(nat, Bytes)> {
    if s == [] then None
    else
      var b0 := s[0] as int;
      if b0 < 0x80 then Some((b0, s[1..]))
      else if 0xC2 <= b0 <= 0xDF && |s| >= 2 && IsTail(s[1]) then
        Some(((b0 - 0xC0) * 64 + (s[1] as int - 0x80), s[2..]))
      else if 0xE0 <= b0 <= 0xEF && |s| >= 3 && IsTail(s[1]) && IsTail(s[2]) then
        var cp := (b0 - 0xE0) * 4096 + (s[1] as int - 0x80) * 64 + (s[2] as int - 0x80);
        if cp < 0x800 then None else Some((cp, s[3..]))
      else None
  }

  /** The same without surrogates, as section 4 of RFC 3629 demands. */
  function DecodeUtf8(s: Bytes): Option<(nat, Bytes)> {
    match DecodeWide(s)
    case Some((cp, rest)) => if IsSurrogate(cp) then None else Some((cp, rest))
    case None => None
  }

  /**
   * What the reader appends is the three-byte form of the escaped character, which is UTF-8
   * unless that is a surrogate.
   */
  lemma Utf8RoundTrip(cp: nat, rest: Bytes)
    requires cp < 0x10000
    ensures DecodeWide(EncodeUtf8(cp) + rest) == Some((cp, rest))
    ensures DecodeUtf8(EncodeUtf8(cp) + rest) == if 0xD800 <= cp <= 0xDFFF then None else Some((cp, rest))
  {
    var e := EncodeUtf8(cp);
    assert (e + rest)[|e|..] == rest;
    assert forall i :: 0 <= i < |e| ==> (e + rest)[i] == e[i];
    if cp >= 0x800 {
      assert cp == cp / 4096 * 4096 + cp / 64 % 64 * 64 + cp % 64;
    }
  }

  // ----- The reader -----

  /** Four hexadecimal digits; `None` when there are fewer or one of them is not a digit. */
  function Hex4(s: Bytes): (r: Option<nat>)
    ensures r.Some? ==> |s| >= 4 && r.value < 0x10000
  {
    if |s| < 4 then None
    else
      match (HexValue(s[0]), HexValue(s[1]), HexValue(s[2]), HexValue(s[3]))
      case (Some(a), Some(b), Some(c), Some(d)) => Some(((a * 16 + b) * 16 + c) * 16 + d)
      case _ => None
  }

  function Unescape(e: Byte): Byte {
    match e
    case 'n' => '\n'
    case 'r' => '\r'
    case 't' => '\t'
    case 'b' => 8 as char
    case 'f' => 12 as char
    case _ => e
  }

  function Prepend(out: Bytes, r: Option<(Bytes, Bytes)>): Option<(Bytes, Bytes)> {
    match r
    case None => None
    case Some((v, rest)) => Some((out + v, rest))
  }

  /** The byte or escape sequence at the start of `s`: the bytes it stands for and its length. */
  function UnitAt(s: Bytes): (r: Option<(Bytes, nat)>)
    requires s != []
    ensures r.Some? ==> 1 <= r.value.1 <= |s|
  {
    if s[0] != '\\' then Some(([s[0]], 1))
    else if |s| == 1 then None
    else if s[1] != 'u' then Some(([Unescape(s[1])], 2))
    else
      match Hex4(s[2..])
      case None => None
      case Some(cp) => Some((EncodeUtf8(cp), 6))
  }

  /** The literal whose opening quote has been consumed: its value and the text after it. */
  function ReadBody(s: Bytes): (r: Option<(Bytes, Bytes)>)
    ensures r.Some? ==> |r.value.1| < |s|
    decreases |s|
  {
    if s == [] then None
    else if s[0] == '\"' then Some(([], s[1..]))
    else
      match UnitAt(s)
      case None => None
      case Some((piece, n)) => Prepend(piece, ReadBody(s[n..]))
  }

  function ReadString(s: Bytes): Option<(Bytes, Bytes)> {
    if s == [] || s[0] != '\"' then None else ReadBody(s[1..])
  }

  /** The number that the first `n` digits spell. */
  function HexDigits(s: Bytes, n: nat): Option<nat>
    requires n <= |s|
  {
    if n == 0 then Some(0)
    else
      match (HexDigits(s, n - 1), HexValue(s[n - 1]))
      case (Some(a), Some(b)) => Some(a * 16 + b)
      case _ => None
  }

  lemma HexDigitsExtend(s: Bytes, n: nat)
    requires n < |s|
    ensures HexDigits(s, n).Some? && HexValue(s[n]).Some? ==>
              HexDigits(s, n + 1) == Some(HexDigits(s, n).value * 16 + HexValue(s[n]).value)
    ensures HexDigits(s, n).None? || HexValue(s[n]).None? ==> HexDigits(s, n + 1).None?
  {
  }

  lemma {:induction false} HexDigitsFail(s: Bytes, n: nat, m: nat)
    requires n <= m <= |s| && HexDigits(s, n).None?
    ensures HexDigits(s, m).None?
  {
    if n < m { HexDigitsFail(s, n, m - 1); }
  }

  lemma Hex4IsDigits(s: Bytes)
    requires |s| >= 4
    ensures Hex4(s) == HexDigits(s, 4)
  {
    HexDigitsExtend(s, 0);
    HexDigitsExtend(s, 1);
    HexDigitsExtend(s, 2);
    HexDigitsExtend(s, 3);
    hide HexDigits, HexValue;
    assert HexDigits(s, 0) == Some(0) by { NoDigits(s); }
  }

  lemma NoDigits(s: Bytes)
    ensures HexDigits(s, 0) == Some(0)
  {
  }

  /** The loop over the four digits behind `\\u`. */
  method ReadHex4(s: Bytes) returns (r: Option<nat>)
    requires |s| >= 4
    ensures r == Hex4(s)
  {
    hide HexDigits, HexValue;
    Hex4IsDigits(s);
    NoDigits(s);
    var cp := 0;
    for i := 0 to 4
      invariant HexDigits(s, i) == Some(cp)
    {
      HexDigitsExtend(s, i);
      var v := HexValue(s[i]);
      if v.None? {
        HexDigitsFail(s, i + 1, 4);
        return None;
      }
      cp := cp * 16 + v.value;
    }
    r := Some(cp);
  }

  /** The escape branch, from the backslash on: the bytes appended and how far the cursor goes. */
  method ReadEscape(s: Bytes) returns (r: Option<(Bytes, nat)>)
    requires s != [] && s[0] == '\\'
    ensures r == UnitAt(s)
  {
    hide Hex4, HexValue, EncodeUtf8;
    if |s| == 1 { return None; }
    var e := s[1];
    match e {
      case 'n' => r := Some((['\n'], 2));
      case 'r' => r := Some((['\r'], 2));
      case 't' => r := Some((['\t'], 2));
      case 'b' => r := Some(([8 as char], 2));
      case 'f' => r := Some(([12 as char], 2));
      case 'u' =>
        if |s| < 6 {
          ShortHex(s[2..]);
          return None;
        }
        var cp := ReadHex4(s[2..]);
        if cp.None? { return None; }
        var piece := AppendUtf8(cp.value);
        r := Some((piece, 6));
      case _ => r := Some(([e], 2));
    }
  }

  lemma ShortHex(s: Bytes)
    requires |s| < 4
    ensures Hex4(s) == None
  {
  }

  /** The branches that append a code point; `|` on disjoint bits is addition. */
  method AppendUtf8(cp: nat) returns (out: Bytes)
    requires cp < 0x10000
    ensures out == EncodeUtf8(cp)
  {
    if cp < 0x80 {
      out := [cp as char];
    } else if cp < 0x800 {
      out := [(0xC0 + cp / 64) as char];
      out := out + [(0x80 + cp % 64) as char];
    } else {
      out := [(0xE0 + cp / 4096) as char];
      out := out + [(0x80 + cp / 64 % 64) as char];
      out := out + [(0x80 + cp % 64) as char];
    }
  }

  /**
   * `read_json_string`: decode the literal at `json[p]` and leave the cursor behind its
   * closing quote.
   */
  method ReadJsonString(json: Bytes, start: nat) returns (r: Option<Bytes>, p: nat)
    requires start <= |json|
    ensures match ReadString(json[start..])
            case None => r == None
            case Some((v, rest)) => r == Some(v) && p <= |json| && json[p..] == rest
  {
    hide UnitAt;
    p := start;
    if p >= |json| || json[p] != '\"' { return None, p; }
    p := p + 1;
    var out: Bytes := [];
    assert json[start..][1..] == json[p..];
    PrependNothing(ReadBody(json[p..]));
    while p < |json|
      invariant p <= |json|
      invariant ReadString(json[start..]) == Prepend(out, ReadBody(json[p..]))
    {
      if json[p] == '\"' {
        assert json[p..][1..] == json[p + 1..];
        assert out + [] == out;
        return Some(out), p + 1;
      }
      var piece, n := [json[p]], 1;
      if json[p] == '\\' {
        var unit := ReadEscape(json[p..]);
        if unit.None? { return None, p; }
        piece, n := unit.value.0, unit.value.1;
      } else {
        PlainUnit(json[p..]);
      }
      assert json[p..][n..] == json[p + n..];
      PrependConcat(out, piece, ReadBody(json[p + n..]));
      out := out + piece;
      p := p + n;
    }
    r := None;
  }

  lemma PlainUnit(s: Bytes)
    requires s != [] && s[0] != '\\'
    ensures UnitAt(s) == Some(([s[0]], 1))
  {
  }

  lemma PrependNothing(r: Option<(Bytes, Bytes)>)
    ensures Prepend([], r) == r
  {
    if r.Some? {
      assert [] + r.value.0 == r.value.0;
    }
  }

  lemma PrependConcat(a: Bytes, b: Bytes, r: Option<(Bytes, Bytes)>)
    ensures Prepend(a, Prepend(b, r)) == Prepend(a + b, r)
  {
    if r.Some? {
      assert a + (b + r.value.0) == (a + b) + r.value.0;
    }
  }

  // ----- Bodies of literals -----

  /** Bytes and escape sequences that the reader takes, up to a closing quote that is not part of them. */
  predicate IsBody(b: Bytes)
    decreases |b|
  {
    b == [] || (b[0] != '\"' && UnitAt(b).Some? && IsBody(b[UnitAt(b).value.1..]))
  }

  type Body = b: Bytes | IsBody(b) witness []

  function BodyValue(b: Bytes): Bytes
    requires IsBody(b)
    decreases |b|
  {
    if b == [] then [] else UnitAt(b).value.0 + BodyValue(b[UnitAt(b).value.1..])
  }

  lemma UnitExtends(s: Bytes, more: Bytes)
    requires s != [] && UnitAt(s).Some?
    ensures UnitAt(s + more) == UnitAt(s)
  {
    hide EncodeUtf8, Hex4;
    if s[0] == '\\' && s[1] == 'u' {
      assert (s + more)[2..] == s[2..] + more;
      Hex4Extends(s[2..], more);
    }
  }

  lemma Hex4Extends(s: Bytes, more: Bytes)
    requires Hex4(s).Some?
    ensures Hex4(s + more) == Hex4(s)
  {
  }

  /** The reader reads a body up to the quote behind it, whatever text follows. */
  lemma {:induction false} ReadOfBody(b: Bytes, rest: Bytes)
    requires IsBody(b)
    ensures ReadBody(b + ("\"" + rest)) == Some((BodyValue(b), rest))
    decreases |b|
  {
    hide UnitAt;
    var tail: Bytes := "\"" + rest;
    if b == [] {
      assert b + tail == tail && tail[1..] == rest;
    } else {
      UnitExtends(b, tail);
      var n := UnitAt(b).value.1;
      assert (b + tail)[n..] == b[n..] + tail;
      ReadOfBody(b[n..], rest);
    }
  }

  lemma ReadQuoted(b: Bytes, rest: Bytes)
    requires IsBody(b)
    ensures ReadString(Quoted(b) + rest) == Some((BodyValue(b), rest))
  {
    hide IsBody, BodyValue, ReadBody;
    assert (Quoted(b) + rest)[1..] == b + ("\"" + rest);
    ReadOfBody(b, rest);
  }

  lemma UnitIsLocal(s: Bytes, n: nat)
    requires s != [] && UnitAt(s).Some? && UnitAt(s).value.1 == n
    ensures n <= |s| && UnitAt(s[..n]) == UnitAt(s)
  {
    hide EncodeUtf8;
    if n == 6 { assert s[..6][2..] == s[2..][..4]; }
  }

  /** And whatever the reader takes is a body and a quote. */
  lemma {:induction false} BodyOfRead(s: Bytes) returns (b: Body)
    requires ReadBody(s).Some?
    ensures s == b + ("\"" + ReadBody(s).value.1) && BodyValue(b) == ReadBody(s).value.0
    decreases |s|
  {
    hide UnitAt;
    if s[0] == '\"' {
      b := [];
      assert s == [] + ("\"" + s[1..]);
    } else {
      var n := UnitAt(s).value.1;
      var more := BodyOfRead(s[n..]);
      UnitIsLocal(s, n);
      UnitExtends(s[..n], more);
      var all := s[..n] + more;
      assert all[n..] == more && all[0] == s[0];
      assert IsBody(all);
      assert s == s[..n] + s[n..];
      b := all;
    }
  }

  // ----- The two are inverse -----

  lemma HexRoundTrip(n: nat)
    requires n < 16
    ensures HexValue(LowerHex(n)) == Some(n)
  {
  }

  lemma UnitOfControl(c: Byte, rest: Bytes)
    requires c < ' '
    ensures UnitAt("\\u00" + [LowerHex(c as int / 16), LowerHex(c as int % 16)] + rest) == Some(([c], 6))
  {
    hide HexValue, LowerHex;
    var s := "\\u00" + [LowerHex(c as int / 16), LowerHex(c as int % 16)] + rest;
    ZeroDigit();
    HexRoundTrip(c as int / 16);
    HexRoundTrip(c as int % 16);
    assert s[2] == '0' && s[3] == '0' && s[4] == LowerHex(c as int / 16) && s[5] == LowerHex(c as int % 16);
  }

  lemma ZeroDigit()
    ensures HexValue('0') == Some(0)
  {
  }

  /** The reader takes each escaped byte as one unit that stands for the byte. */
  lemma UnitOfEscaped(c: Byte, rest: Bytes)
    ensures var e := EscapeByte(c);
            e[0] != '\"' && UnitAt(e + rest) == Some(([c], |e|)) && (e + rest)[|e|..] == rest
  {
    hide Hex4, LowerHex;
    if |EscapeByte(c)| == 6 { UnitOfControl(c, rest); }
  }

  lemma {:induction false} EscapeIsBody(v: Bytes)
    ensures IsBody(Escape(v)) && BodyValue(Escape(v)) == v
  {
    hide EscapeByte, UnitAt;
    if v == [] {
    } else {
      UnitOfEscaped(v[0], Escape(v[1..]));
      EscapeIsBody(v[1..]);
      assert [v[0]] + v[1..] == v;
    }
  }

  /** The body that `json_escape` prints for a string. */
  function Encoded(v: Bytes): (b: Body)
    ensures BodyValue(b) == v
  {
    EscapeIsBody(v);
    Escape(v)
  }

  /** Reading the literal printed for `v` gives `v` back, whatever text follows it. */
  lemma ReadPrinted(v: Bytes, rest: Bytes)
    ensures ReadBody(Escape(v) + ("\"" + rest)) == Some((v, rest))
  {
    hide Escape, IsBody, BodyValue, ReadBody;
    EscapeIsBody(v);
    ReadOfBody(Escape(v), rest);
  }

  lemma ReadPrintedLiteral(v: Bytes, rest: Bytes)
    ensures ReadString(JsonString(v) + rest) == Some((v, rest))
  {
    hide Escape, IsBody, BodyValue, Quoted, ReadString;
    EscapeIsBody(v);
    ReadQuoted(Escape(v), rest);
  }

  lemma EscapeInjective(v: Bytes, w: Bytes)
    requires Escape(v) == Escape(w)
    ensures v == w
  {
    EscapeIsBody(v);
    EscapeIsBody(w);
  }

  /** The same, at any offset of a text, through the cursor method's own specification. */
  lemma ReadPrintedAt(before: Bytes, v: Bytes, after: Bytes)
    ensures var json := before + JsonString(v) + after;
            ReadString(json[|before|..]) == Some((v, json[|before| + |JsonString(v)|..]))
  {
    hide JsonString, ReadString;
    var json := before + JsonString(v) + after;
    assert json[|before|..] == JsonString(v) + after;
    assert json[|before| + |JsonString(v)|..] == after;
    ReadPrintedLiteral(v, after);
  }

  /** A `\u` escape of any four digits reads as that code point in UTF-8. */
  lemma ReadUnicodeEscape(digits: Bytes, cp: nat, rest: Bytes)
    requires |digits| == 4 && Hex4(digits) == Some(cp)
    ensures ReadBody("\\u" + digits + rest) == Prepend(EncodeUtf8(cp), ReadBody(rest))
  {
    var s := "\\u" + digits + rest;
    assert s[2..][..4] == digits;
    assert s[6..] == rest;
  }

  /** A digit has the value of its place in one of the two rows, and other bytes have none. */
  lemma HexValueIff(c: Byte, v: nat)
    requires v < 16
    ensures HexValue(c) == Some(v) <==> c == LOWER_DIGITS[v] || c == UPPER_DIGITS[v]
    ensures LowerHex(v) == LOWER_DIGITS[v]
  {
  }

  /**
   * Each of the two-byte escapes reads as the byte it is short for; an escape that is not
   * known, like those of the quote, the slash and the backslash, reads as its second byte.
   */
  lemma ReadShortEscape(e: Byte, rest: Bytes)
    requires e != 'u'
    ensures ReadBody("\\" + [e] + rest)
            == Prepend(if e == 'b' then [8 as char] else if e == 't' then [9 as char] else if e == 'n' then [10 as char]
                       else if e == 'f' then [12 as char] else if e == 'r' then [13 as char] else [e], ReadBody(rest))
  {
    var s := "\\" + [e] + rest;
    assert s[2..] == rest;
  }

  /** Every other byte but the quote and the backslash reads as itself, control bytes and line ends too. */
  lemma ReadPlainByte(c: Byte, rest: Bytes)
    requires c != '\"' && c != '\\'
    ensures ReadBody([c] + rest) == Prepend([c], ReadBody(rest))
  {
    assert ([c] + rest)[1..] == rest;
  }

  /** A `\u` without four hexadecimal digits, a backslash at the end and a missing quote fail. */
  lemma ReadBadEscape(digits: Bytes)
    requires Hex4(digits) == None
    ensures ReadBody("\\u" + digits) == None && ReadBody("\\") == None && ReadBody([]) == None
  {
    var s := "\\u" + digits;
    assert s[2..] == digits;
  }

  /** Four digits spell a code point, most significant first. */
  lemma Hex4Spells(s: Bytes, a: nat, b: nat, c: nat, d: nat)
    requires a < 16 && b < 16 && c < 16 && d < 16
    ensures Hex4([LowerHex(a), LowerHex(b), LowerHex(c), LowerHex(d)] + s) == Some(a * 4096 + b * 256 + c * 16 + d)
  {
    hide HexValue, LowerHex;
    HexRoundTrip(a);
    HexRoundTrip(b);
    HexRoundTrip(c);
    HexRoundTrip(d);
  }

  predicate IsHexDigit(c: Byte) { c in LOWER_DIGITS || c in UPPER_DIGITS }

  lemma IsDigitIff(c: Byte)
    ensures HexValue(c).Some? <==> IsHexDigit(c)
  {
  }

  /** Nothing else spells one. */
  lemma Hex4Iff(s: Bytes)
    ensures Hex4(s).Some? <==> |s| >= 4 && forall i :: 0 <= i < 4 ==> IsHexDigit(s[i])
  {
    hide HexValue, IsHexDigit;
    if |s| >= 4 {
      IsDigitIff(s[0]);
      IsDigitIff(s[1]);
      IsDigitIff(s[2]);
      IsDigitIff(s[3]);
    }
  }

  /** The escaper prints no control byte, and each of the five short forms where there is one. */
  lemma {:induction false} EscapePrints(v: Bytes)
    ensures forall i :: 0 <= i < |Escape(v)| ==> Escape(v)[i] >= ' '
    ensures Escape("\\") == "\\\\" && Escape("\"") == "\\\"" && Escape("\n") == "\\n" && Escape("\r") == "\\r"
    ensures Escape("\t") == "\\t"
  {
    if v == [] {
    } else {
      EscapePrints(v[1..]);
      EscapedByte(v[0]);
    }
    forall c: Byte
      ensures Escape([c]) == EscapeByte(c)
    {
      assert [c][1..] == [];
      assert Escape([]) == [];
    }
  }

  lemma EscapedByte(c: Byte)
    ensures forall i :: 0 <= i < |EscapeByte(c)| ==> EscapeByte(c)[i] >= ' '
  {
  }

  // ----- A literal ends at its own quote -----

  /** What has been read stays read when more text follows. */
  lemma {:induction false} ReadExtends(s: Bytes, more: Bytes)
    requires ReadBody(s).Some?
    ensures ReadBody(s + more) == Some((ReadBody(s).value.0, ReadBody(s).value.1 + more))
    decreases |s|
  {
    hide UnitAt;
    if s[0] == '\"' {
      assert (s + more)[1..] == s[1..] + more;
    } else {
      UnitExtends(s, more);
      var n := UnitAt(s).value.1;
      assert (s + more)[n..] == s[n..] + more;
      ReadExtends(s[n..], more);
    }
  }

  lemma SplitLiteral(b: Bytes, n: nat)
    requires 0 < n <= |Quoted(b)|
    ensures Quoted(b)[..n][1..] + Quoted(b)[n..] == b + "\""
  {
    var all := Quoted(b);
    assert all == all[..n] + all[n..];
    assert all[..n][1..] + all[n..] == all[1..];
  }

  /** A literal that has been cut short is refused, wherever the cut is. */
  lemma CutLiteralFails(b: Body, n: nat)
    requires n < |Quoted(b)|
    ensures ReadString(Quoted(b)[..n]) == None
  {
    hide IsBody, BodyValue, ReadBody, Quoted;
    if n > 0 {
      var s, more := Quoted(b)[..n][1..], Quoted(b)[n..];
      SplitLiteral(b, n);
      ReadOfBody(b, []);
      assert "\"" + [] == "\"";
      QuotedStart(b);
      if ReadBody(s).Some? {
        ReadExtends(s, more);
      }
    }
  }

  lemma QuotedStart(b: Bytes)
    ensures Quoted(b)[0] == '\"' && |Quoted(b)| == |b| + 2
  {
  }
}
