/**
 * Where a download is saved: the name sanitiser (src/user_data.cpp:51-61) and the loop that
 * looks for an unused name (src/native_app.cpp:2831-2836). A destination is a name in the
 * download directory; the directory is taken as normalised, and what exists in it as a finite
 * set of names.
 */
module DownloadName {
  import opened Text

  const MAX_NAME := 120
  const MAX_EXTENSION := 12

  /** Position of the last `c`, or -1. */
  function LastIndex(s: Bytes, c: Byte): (i: int)
    ensures -1 <= i < |s|
    ensures i >= 0 ==> s[i] == c
    ensures forall j :: i < j < |s| ==> s[j] != c
  {
    if s == [] then -1
    else if s[|s| - 1] == c then |s| - 1
    else LastIndex(s[..|s| - 1], c)
  }

  /** `path.filename()`. */
  function FileName(path: Bytes): Bytes { path[LastIndex(path, '/') + 1..] }

  /** `path.extension()` of a file name: from the last dot on, unless that is the first byte or the name is "..". */
  function Extension(name: Bytes): Bytes {
    var dot := LastIndex(name, '.');
    if dot <= 0 || name == ".." then [] else name[dot..]
  }

  /** `path.stem()` of a file name. */
  function Stem(name: Bytes): Bytes { name[..|name| - |Extension(name)|] }

  // ----- The sanitiser -----

  predicate IsClean(c: Byte) {
    c >= ' ' && c as int != 127 && c != '/' && c != '\\'
  }

  predicate Clean(s: Bytes) {
    forall i :: 0 <= i < |s| ==> IsClean(s[i])
  }

  function Filter(s: Bytes): (r: Bytes)
    ensures Clean(r)
  {
    if s == [] then [] else (if IsClean(s[0]) then [s[0]] else []) + Filter(s[1..])
  }

  function Shorten(name: Bytes): Bytes {
    if |name| <= MAX_NAME then name
    else
      var suffix := if |Extension(name)| <= MAX_EXTENSION then Extension(name) else [];
      name[..MAX_NAME - |suffix|] + suffix
  }

  /** The name before it is cut to length. */
  function Named(suggested: Bytes): (r: Bytes)
    ensures r != []
  {
    var kept := Filter(FileName(suggested));
    var name := if kept == [] || kept == "." || kept == ".." then "download" else kept;
    if name[0] == '.' then "download" + name else name
  }

  function SafeName(suggested: Bytes): Bytes { Shorten(Named(suggested)) }

  method SafeDownloadName(suggested: Bytes) returns (name: Bytes)
    ensures name == SafeName(suggested)
  {
    name := FileName(suggested);
    name := Filter(name);
    if name == [] || name == "." || name == ".." { name := "download"; }
    if name[0] == '.' { name := "download" + name; }
    if |name| > MAX_NAME {
      var extension := Extension(name);
      var suffix := if |extension| <= MAX_EXTENSION then extension else [];
      name := name[..MAX_NAME - |suffix|];
      name := name + suffix;
    }
  }

  /**
   * A name that stands for itself in any directory: at most 120 bytes, no control byte, no
   * slash or backslash, no dot in front.
   */
  predicate IsSafe(name: Bytes) {
    && name != [] && |name| <= 120 && name[0] != '.'
    && forall i :: 0 <= i < |name| ==> name[i] >= ' ' && name[i] as int != 127 && name[i] != '/' && name[i] != '\\'
  }

  /** Whatever a server suggests, the name is safe: the check against escaping the directory never fails. */
  lemma SafeNameIsSafe(suggested: Bytes)
    ensures IsSafe(SafeName(suggested))
  {
    NamedIsClean(suggested);
    hide Named;
    var name := Named(suggested);
    if |name| > MAX_NAME {
      assert forall i :: 0 <= i < |Extension(name)| ==> Extension(name)[i] == name[|name| - |Extension(name)| + i];
    }
  }

  lemma CleanConcat(a: Bytes, b: Bytes)
    requires Clean(a) && Clean(b)
    ensures Clean(a + b)
  {
  }

  lemma NamedIsClean(suggested: Bytes)
    ensures Clean(Named(suggested)) && Named(suggested)[0] != '.'
  {
    hide Filter, FileName;
    var download: Bytes := "download";
    assert Clean(download);
    hide Clean;
    CleanConcat(download, Filter(FileName(suggested)));
  }

  lemma {:induction false} FilterKeeps(s: Bytes)
    requires Clean(s)
    ensures Filter(s) == s
  {
    if s == [] {
    } else {
      FilterKeeps(s[1..]);
    }
  }

  /** Sanitising leaves exactly the safe names alone; so sanitising twice is sanitising once. */
  lemma SafeNamesAreFixed(name: Bytes)
    ensures SafeName(name) == name <==> IsSafe(name)
  {
    SafeNameIsSafe(name);
    if IsSafe(name) {
      assert LastIndex(name, '/') == -1;
      assert FileName(name) == name;
      FilterKeeps(name);
    }
  }

  lemma SanitisingIsIdempotent(suggested: Bytes)
    ensures SafeName(SafeName(suggested)) == SafeName(suggested)
  {
    SafeNameIsSafe(suggested);
    SafeNamesAreFixed(SafeName(suggested));
  }

  // ----- What the steps do to other names -----

  lemma LastIndexBehind(a: Bytes, b: Bytes, c: Byte)
    requires Lacks(b, c)
    ensures LastIndex(a + [c] + b, c) == |a|
  {
    hide LastIndex;
    NoneBehind(a, b, c);
  }

  lemma NoneBehind(a: Bytes, b: Bytes, c: Byte)
    requires Lacks(b, c)
    ensures var s := a + [c] + b; s[|a|] == c && forall j :: |a| < j < |s| ==> s[j] != c
  {
  }

  lemma LastIndexNone(s: Bytes, c: Byte)
    requires Lacks(s, c)
    ensures LastIndex(s, c) == -1
  {
  }

  lemma {:induction false} FilterConcat(a: Bytes, b: Bytes)
    ensures Filter(a + b) == Filter(a) + Filter(b)
  {
    if a == [] {
      assert a + b == b;
    } else {
      assert (a + b)[1..] == a[1..] + b;
      FilterConcat(a[1..], b);
    }
  }

  lemma FilterOne(c: Byte)
    ensures Filter([c]) == if IsClean(c) then [c] else []
  {
    assert Filter([c][1..]) == [];
  }

  lemma {:induction false} FileNameParts(path: Bytes) returns (directory: Bytes, name: Bytes)
    ensures path == directory + name && Lacks(name, '/') && (directory == [] || directory[|directory| - 1] == '/')
  {
    if path == [] {
      directory, name := [], [];
    } else {
      var n := |path| - 1;
      if path[n] == '/' {
        directory, name := path, [];
      } else {
        directory, name := FileNameParts(path[..n]);
        name := name + [path[n]];
      }
    }
  }

  lemma FileNameOf(directory: Bytes, name: Bytes)
    requires Lacks(name, '/') && (directory == [] || directory[|directory| - 1] == '/')
    ensures FileName(directory + name) == name
  {
    if directory == [] {
      assert directory + name == name;
      LastIndexNone(name, '/');
    } else {
      var d := directory[..|directory| - 1];
      assert directory + name == d + ['/'] + name;
      LastIndexBehind(d, name, '/');
    }
  }

  /** Directories in front of the name do not matter. */
  lemma DirectoriesAreDropped(directory: Bytes, name: Bytes)
    requires Lacks(name, '/')
    ensures SafeName(directory + "/" + name) == SafeName(name)
  {
    hide FileName, SafeName;
    FileNameOf(directory + "/", name);
    FileNameOf([], name);
    assert [] + name == name;
    SameFiltered(directory + "/" + name, name);
  }

  /** A control byte or a backslash leaves no trace, wherever it stands. */
  lemma ForbiddenIsDropped(a: Bytes, c: Byte, b: Bytes)
    requires c < ' ' || c as int == 127 || c == '\\'
    ensures SafeName(a + [c] + b) == SafeName(a + b)
  {
    hide SafeName, FileName;
    var directory, name := FileNameParts(b);
    if directory != [] {
      FileNameOf(a + [c] + directory, name);
      FileNameOf(a + directory, name);
      assert a + [c] + b == a + [c] + directory + name && a + b == a + directory + name;
    } else {
      var first, start := FileNameParts(a);
      LacksConcat(start, [c], '/');
      LacksConcat(start + [c], name, '/');
      LacksConcat(start, name, '/');
      FileNameOf(first, start + [c] + name);
      FileNameOf(first, start + name);
      assert a + [c] + b == first + (start + [c] + name) && a + b == first + (start + name);
      FilterConcat(start + [c], name);
      FilterConcat(start, [c]);
      FilterConcat(start, name);
      FilterOne(c);
      assert Filter(start) + [] == Filter(start);
    }
    SameFiltered(a + [c] + b, a + b);
  }

  lemma SameFiltered(a: Bytes, b: Bytes)
    requires Filter(FileName(a)) == Filter(FileName(b))
    ensures SafeName(a) == SafeName(b)
  {
    hide Filter, FileName;
  }

  /** Names without a name get one, and a name with a dot in front gets a name in front of it. */
  lemma NamelessAndHidden(name: Bytes)
    requires Clean(name)
    ensures name == [] || name == "." || name == ".." ==> SafeName(name) == "download"
    ensures |name| > 1 && name != ".." && name[0] == '.' && |name| <= 112 ==> SafeName(name) == "download" + name
  {
    FileNameOf([], name);
    assert [] + name == name;
    FilterKeeps(name);
  }

  /** A name that is only too long is cut at 120 bytes, in front of its extension if that has at most twelve. */
  lemma LongIsCut(name: Bytes)
    requires |name| > 120 && name[0] != '.' && Clean(name)
    ensures var n := |Extension(name)|;
            SafeName(name) == if n <= 12 then name[..120 - n] + name[|name| - n..] else name[..120]
  {
    hide Extension, Named;
    CleanIsNamed(name);
    StemAndExtension(name);
    EndsWithExtension(name);
    assert name[..120] + [] == name[..120];
  }

  lemma CleanIsNamed(name: Bytes)
    requires name != [] && name[0] != '.' && Clean(name)
    ensures Named(name) == name
  {
    FileNameOf([], name);
    assert [] + name == name;
    FilterKeeps(name);
  }

  lemma EndsWithExtension(name: Bytes)
    ensures |Extension(name)| <= |name| && name[|name| - |Extension(name)|..] == Extension(name)
  {
    hide LastIndex;
  }

  /** The extension goes from the last dot on, which may not be the first byte. */
  lemma ExtensionIs(stem: Bytes, rest: Bytes)
    requires Lacks(rest, '.')
    ensures stem != [] && stem + "." + rest != ".." ==> Extension(stem + "." + rest) == "." + rest
    ensures Extension("." + rest) == [] && Extension(rest) == []
  {
    var name := stem + "." + rest;
    LastIndexBehind(stem, rest, '.');
    LastIndexBehind([], rest, '.');
    assert [] + ['.'] + rest == "." + rest;
    LastIndexNone(rest, '.');
    assert name[|stem|..] == "." + rest;
  }

  lemma LastIndexIs(s: Bytes, c: Byte, i: nat)
    requires i < |s| && s[i] == c && forall j :: i < j < |s| ==> s[j] != c
    ensures LastIndex(s, c) == i
  {
  }

  /** A text with an extension appended has that extension. */
  lemma AppendedExtension(stem: Bytes, name: Bytes)
    requires stem != [] && stem[0] != '.' && Extension(name) != []
    ensures Extension(stem + Extension(name)) == Extension(name)
  {
    var e := Extension(name);
    var s := stem + e;
    var dot := LastIndex(name, '.');
    assert forall j :: 0 < j < |e| ==> e[j] == name[dot + j];
    assert s[|stem|] == e[0] == '.';
    assert forall j :: |stem| < j < |s| ==> s[j] == e[j - |stem|];
    LastIndexIs(s, '.', |stem|);
    assert s[|stem|..] == e;
  }

  /** Cutting a long name keeps its extension, if that has at most twelve bytes. */
  lemma ShorteningKeepsExtension(suggested: Bytes)
    requires var e := Extension(Named(suggested)); e != [] && |e| <= MAX_EXTENSION
    ensures Extension(SafeName(suggested)) == Extension(Named(suggested))
  {
    var name := Named(suggested);
    if |name| > MAX_NAME {
      AppendedExtension(name[..MAX_NAME - |Extension(name)|], name);
    }
  }

  // ----- The collision loop -----

  /** `std::to_string` of the 32-bit counter after `k` increments from one. */
  function Counter(k: nat): nat { (k + 1) % 0x1_0000_0000 }

  function NextName(name: Bytes, suffix: nat): Bytes {
    Stem(name) + " (" + Decimal(suffix) + ")" + Extension(name)
  }

  /** The k-th name the loop tries: each is made from the one before it. */
  function Candidate(name: Bytes, k: nat): Bytes {
    if k == 0 then name else NextName(Candidate(name, k - 1), Counter(k - 1))
  }

  lemma StemAndExtension(name: Bytes)
    ensures name == Stem(name) + Extension(name)
    ensures name != [] && name[0] != '.' ==> Stem(name) != [] && Stem(name)[0] == name[0]
    ensures Extension(name) == [] && name != [] && name[0] != '.' ==> Lacks(name, '.')
  {
  }

  lemma NoExtension(name: Bytes)
    requires Lacks(name, '.')
    ensures Extension(name) == []
  {
  }

  lemma InsertedText(suffix: nat)
    ensures Lacks(" (" + Decimal(suffix) + ")", '/') && Lacks(" (" + Decimal(suffix) + ")", '.')
  {
  }

  /** Same extension, longer name and stem, no separators. */
  lemma NextNameShape(name: Bytes, suffix: nat)
    requires name != [] && name[0] != '.'
    ensures var next := NextName(name, suffix);
            && Extension(next) == Extension(name)
            && |next| > |name| && next[0] == name[0]
            && (Lacks(name, '/') ==> Lacks(next, '/'))
  {
    hide Decimal, Lacks, Stem, Extension;
    var inserted := " (" + Decimal(suffix) + ")";
    var stem := Stem(name) + inserted;
    StemAndExtension(name);
    InsertedText(suffix);
    assert NextName(name, suffix) == stem + Extension(name);
    LacksConcat(Stem(name), Extension(name), '/');
    LacksConcat(Stem(name), inserted, '/');
    LacksConcat(stem, Extension(name), '/');
    if Extension(name) == [] {
      LacksConcat(Stem(name), Extension(name), '.');
      LacksConcat(Stem(name), inserted, '.');
      LacksConcat(stem, Extension(name), '.');
      NoExtension(stem + Extension(name));
    } else {
      AppendedExtension(stem, name);
    }
  }

  /** Every candidate has the extension of the first name and stays in its directory. */
  lemma {:induction false} CandidateShape(name: Bytes, k: nat)
    requires name != [] && name[0] != '.'
    ensures var c := Candidate(name, k);
            && c != [] && c[0] == name[0] && Extension(c) == Extension(name) && |c| >= |name| + k
            && (Lacks(name, '/') ==> Lacks(c, '/'))
  {
    hide NextName, Lacks, Extension;
    if k == 0 {
    } else {
      CandidateShape(name, k - 1);
      NextNameShape(Candidate(name, k - 1), Counter(k - 1));
    }
  }

  /** What stands between stem and extension of the k-th candidate: the counters up to k, 32 bits each, in brackets. */
  function Suffixes(k: nat): Bytes {
    if k == 0 then [] else Suffixes(k - 1) + " (" + Decimal(k % 0x1_0000_0000) + ")"
  }

  /** The k-th candidate keeps the suffixes of all before it: "a (1) (2).txt" comes behind "a (1).txt". */
  lemma {:induction false} CandidateText(name: Bytes, k: nat)
    requires name != [] && name[0] != '.'
    ensures Candidate(name, k) == Stem(name) + Suffixes(k) + Extension(name)
  {
    hide Stem, Extension, Decimal, NextName;
    StemAndExtension(name);
    if k == 0 {
      assert Stem(name) + [] + Extension(name) == name;
    } else {
      CandidateText(name, k - 1);
      CandidateShape(name, k - 1);
      var c := Candidate(name, k - 1);
      NextText(c, k % 0x1_0000_0000);
      StemAndExtension(c);
      SameStem(Stem(c), Stem(name) + Suffixes(k - 1), Extension(name));
      RegroupSuffix(Stem(name), Suffixes(k - 1), Decimal(k % 0x1_0000_0000), Extension(name));
    }
  }

  lemma NextText(name: Bytes, suffix: nat)
    ensures NextName(name, suffix) == Stem(name) + " (" + Decimal(suffix) + ")" + Extension(name)
  {
    hide Stem, Extension, Decimal;
  }

  lemma SameStem(a: Bytes, b: Bytes, e: Bytes)
    requires a + e == b + e
    ensures a == b
  {
    assert |a| == |b|;
    assert a == (a + e)[..|a|] && b == (b + e)[..|b|];
  }

  lemma RegroupSuffix(s: Bytes, m: Bytes, d: Bytes, e: Bytes)
    ensures (s + m) + " (" + d + ")" + e == s + (m + " (" + d + ")") + e
  {
  }

  lemma FirstCandidate(name: Bytes)
    ensures Candidate(name, 0) == name && Counter(0) == 1
  {
  }

  lemma NextCandidate(name: Bytes, k: nat)
    ensures Candidate(name, k + 1) == NextName(Candidate(name, k), Counter(k))
    ensures Counter(k + 1) == (Counter(k) + 1) % 0x1_0000_0000
  {
    hide NextName;
    NextCounter(k);
    hide Counter;
  }

  lemma NextCounter(k: nat)
    ensures Counter(k + 1) == (Counter(k) + 1) % 0x1_0000_0000
  {
    var n, m := k + 1, 0x1_0000_0000;
    assert n == n / m * m + n % m;
  }

  /** The existing names the loop can still run into. */
  ghost function Ahead(existing: set<Bytes>, name: Bytes): set<Bytes> {
    set x | x in existing && |x| >= |name|
  }

  lemma AheadShrinks(existing: set<Bytes>, name: Bytes, next: Bytes)
    requires name in existing && |next| > |name|
    ensures Ahead(existing, next) < Ahead(existing, name)
  {
    assert name in Ahead(existing, name);
  }

  /**
   * The loop ends for every finite set of existing names, since each name is longer than the
   * last, and gives the first candidate that is not taken.
   */
  method UnusedName(existing: set<Bytes>, name: Bytes) returns (destination: Bytes, ghost tries: nat)
    requires name != [] && name[0] != '.'
    ensures destination !in existing
    ensures destination == Candidate(name, tries) && forall k :: 0 <= k < tries ==> Candidate(name, k) in existing
    ensures Extension(destination) == Extension(name) && (Lacks(name, '/') ==> Lacks(destination, '/'))
  {
    hide Stem, Extension, Decimal, Lacks, Ahead, Candidate, Counter;
    FirstCandidate(name);
    destination, tries := name, 0;
    var suffix := 1;
    while destination in existing
      invariant destination == Candidate(name, tries) && suffix == Counter(tries)
      invariant forall k :: 0 <= k < tries ==> Candidate(name, k) in existing
      decreases Ahead(existing, destination)
    {
      CandidateShape(name, tries);
      NextNameShape(destination, suffix);
      AheadShrinks(existing, destination, NextName(destination, suffix));
      NextCandidate(name, tries);
      var stem := Stem(destination);
      var extension := Extension(destination);
      destination := stem + " (" + Decimal(suffix) + ")" + extension;
      suffix := (suffix + 1) % 0x1_0000_0000;
      tries := tries + 1;
    }
    CandidateShape(name, tries);
  }

  /** From a suggested name to the unused name the download is saved under. */
  method DownloadDestination(existing: set<Bytes>, suggested: Bytes) returns (destination: Bytes)
    ensures destination !in existing
    ensures SafeName(suggested) !in existing ==> destination == SafeName(suggested)
    ensures Extension(destination) == Extension(SafeName(suggested)) && Lacks(destination, '/')
  {
    hide SafeName, Extension, Candidate;
    var name := SafeDownloadName(suggested);
    SafeNameIsSafe(suggested);
    ghost var tries;
    destination, tries := UnusedName(existing, name);
    FirstCandidate(name);
  }

  lemma {:induction false} CandidatesGrow(name: Bytes, j: nat, k: nat)
    requires name != [] && name[0] != '.' && j < k
    ensures |Candidate(name, j)| < |Candidate(name, k)|
    decreases k
  {
    hide NextName, Extension, Lacks;
    CandidateShape(name, k - 1);
    NextNameShape(Candidate(name, k - 1), Counter(k - 1));
    if j < k - 1 { CandidatesGrow(name, j, k - 1); }
  }

  /** The candidates differ, so the loop tries at most as many taken names as there are. */
  lemma {:induction false} TriesAreBounded(existing: set<Bytes>, name: Bytes, tries: nat)
    requires name != [] && name[0] != '.'
    requires forall k :: 0 <= k < tries ==> Candidate(name, k) in existing
    ensures tries <= |existing|
  {
    hide Candidate;
    if tries > 0 {
      var last := Candidate(name, tries - 1);
      forall k | 0 <= k < tries - 1
        ensures Candidate(name, k) in existing - {last}
      {
        CandidatesGrow(name, k, tries - 1);
      }
      TriesAreBounded(existing - {last}, name, tries - 1);
    }
  }
}
