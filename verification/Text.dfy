/** Bytes, optional values and the few string searches the other modules share. */
module Text {

  datatype Option<+T> = None | Some(value: T)

  /** A C++ `char`, read as an unsigned byte. */
  type Byte = c: char | c as int < 256
  type Bytes = seq<Byte>

  /** `std::isspace` in the "C" locale. */
  predicate IsSpace(c: Byte) {
    c == ' ' || 9 <= c as int <= 13
  }

  /** The hexadecimal digits in order; those from ten on also in upper case. */
  const LOWER_DIGITS: Bytes := "0123456789abcdef"
  const UPPER_DIGITS: Bytes := "0123456789ABCDEF"

  /** The value of a hexadecimal digit. */
  function HexValue(c: Byte): (r: Option<nat>)
    ensures r.Some? ==> r.value < 16
  {
    if '0' <= c <= '9' then Some(c as int - '0' as int)
    else if 'a' <= c <= 'f' then Some(c as int - 'a' as int + 10)
    else if 'A' <= c <= 'F' then Some(c as int - 'A' as int + 10)
    else None
  }

  predicate OccursAt(s: Bytes, needle: Bytes, i: int) {
    0 <= i && i + |needle| <= |s| && s[i..i + |needle|] == needle
  }

  /** `s.find(needle, from)`: the least position at or after `from` where `needle` starts. */
  function Find(s: Bytes, needle: Bytes, from: nat): (r: Option<nat>)
    ensures r.Some? ==> from <= r.value && r.value + |needle| <= |s|
    decreases |s| - from
  {
    if from + |needle| > |s| then None
    else if OccursAt(s, needle, from) then Some(from)
    else Find(s, needle, from + 1)
  }

  /** `Find` gives the first occurrence, and gives none only when there is none. */
  lemma FindIsFirst(s: Bytes, needle: Bytes, from: nat)
    ensures match Find(s, needle, from)
            case None => forall j :: from <= j ==> !OccursAt(s, needle, j)
            case Some(i) => OccursAt(s, needle, i) && forall j :: from <= j < i ==> !OccursAt(s, needle, j)
    decreases |s| - from
  {
    if from + |needle| <= |s| && !OccursAt(s, needle, from) {
      FindIsFirst(s, needle, from + 1);
    }
  }

  /** What follows the first occurrence of `needle`. */
  function After(s: Bytes, needle: Bytes): Option<Bytes> {
    match Find(s, needle, 0)
    case None => None
    case Some(i) => Some(s[i + |needle|..])
  }

  lemma AfterFirst(s: Bytes, needle: Bytes, i: nat)
    requires OccursAt(s, needle, i)
    requires forall j :: 0 <= j < i ==> !OccursAt(s, needle, j)
    ensures After(s, needle) == Some(s[i + |needle|..])
  {
    FindIsFirst(s, needle, 0);
  }

  /** A find that starts at `from` is a find in the rest of the text. */
  lemma FindInRest(s: Bytes, needle: Bytes, from: nat)
    requires from <= |s|
    ensures match Find(s, needle, from)
            case None => After(s[from..], needle) == None
            case Some(i) => After(s[from..], needle) == Some(s[i + |needle|..])
    decreases |s| - from
  {
    var rest := s[from..];
    forall j | 0 <= j
      ensures OccursAt(rest, needle, j) == OccursAt(s, needle, from + j)
    {
      if from + j + |needle| <= |s| {
        assert rest[j..j + |needle|] == s[from + j..from + j + |needle|];
      }
    }
    FindIsFirst(s, needle, from);
    match Find(s, needle, from) {
      case None =>
        FindIsFirst(rest, needle, 0);
      case Some(i) =>
        assert OccursAt(rest, needle, i - from);
        AfterFirst(rest, needle, i - from);
    }
  }

  function SkipSpace(s: Bytes): (r: Bytes)
    ensures |r| <= |s|
  {
    if s != [] && IsSpace(s[0]) then SkipSpace(s[1..]) else s
  }

  function TrimEnd(s: Bytes): (r: Bytes)
    ensures |r| <= |s|
  {
    if s != [] && IsSpace(s[|s| - 1]) then TrimEnd(s[..|s| - 1]) else s
  }

  predicate AllSpace(s: Bytes) {
    forall i :: 0 <= i < |s| ==> IsSpace(s[i])
  }

  lemma {:induction false} SkipSpaceOver(a: Bytes, s: Bytes)
    requires AllSpace(a)
    ensures SkipSpace(a + s) == SkipSpace(s)
  {
    if a == [] {
      assert a + s == s;
    } else {
      assert (a + s)[1..] == a[1..] + s;
      SkipSpaceOver(a[1..], s);
    }
  }

  lemma {:induction false} TrimEndOver(s: Bytes, b: Bytes)
    requires AllSpace(b)
    ensures TrimEnd(s + b) == TrimEnd(s)
  {
    if b == [] {
      assert s + b == s;
    } else {
      var n := |b| - 1;
      assert (s + b)[..|s + b| - 1] == s + b[..n];
      TrimEndOver(s, b[..n]);
    }
  }

  /** Position of the first `c`, or the length. */
  function IndexOf(s: Bytes, c: Byte): (i: nat)
    ensures i <= |s|
    ensures i < |s| ==> s[i] == c
    ensures forall j :: 0 <= j < i ==> s[j] != c
  {
    if s == [] || s[0] == c then 0 else 1 + IndexOf(s[1..], c)
  }

  predicate Lacks(s: Bytes, c: Byte) {
    forall i :: 0 <= i < |s| ==> s[i] != c
  }

  lemma LacksConcat(a: Bytes, b: Bytes, c: Byte)
    ensures Lacks(a + b, c) <==> Lacks(a, c) && Lacks(b, c)
  {
    var s := a + b;
    assert forall i :: 0 <= i < |a| ==> s[i] == a[i];
    assert forall i :: 0 <= i < |b| ==> s[|a| + i] == b[i];
  }

  lemma IndexIs(s: Bytes, c: Byte, i: nat)
    requires i < |s| && s[i] == c && forall j :: 0 <= j < i ==> s[j] != c
    ensures IndexOf(s, c) == i
  {
  }

  predicate AllDigits(s: Bytes) { forall i :: 0 <= i < |s| ==> '0' <= s[i] <= '9' }

  /** `std::to_string`. */
  function Decimal(n: nat): (r: Bytes)
    ensures r != [] && forall i :: 0 <= i < |r| ==> '0' <= r[i] <= '9'
  {
    var digit := ('0' as int + n % 10) as char;
    (if n < 10 then [] else Decimal(n / 10)) + [digit]
  }

  /** The number that digits spell. */
  function ReadNat(s: Bytes): nat
    requires AllDigits(s)
  {
    if s == [] then 0 else ReadNat(s[..|s| - 1]) * 10 + (s[|s| - 1] as int - '0' as int)
  }

  /** The digits spell the number, without a leading zero. */
  lemma {:induction false} ReadDecimal(n: nat)
    ensures AllDigits(Decimal(n)) && ReadNat(Decimal(n)) == n
    ensures Decimal(n)[0] == '0' ==> n == 0 && |Decimal(n)| == 1
  {
    var s := Decimal(n);
    if n < 10 {
      assert s[..0] == [];
    } else {
      ReadDecimal(n / 10);
      assert s[..|s| - 1] == Decimal(n / 10);
    }
  }
}
