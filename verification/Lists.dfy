/** Small numbers and the edits of a list that the tab machines share. */
module Lists {

  function Min(a: int, b: int): int { if a < b then a else b }
  function Max(a: int, b: int): int { if a < b then b else a }

  /** `erase` at a position. */
  function Without<T>(s: seq<T>, i: nat): seq<T>
    requires i < |s|
  {
    s[..i] + s[i + 1..]
  }

  /** `insert` at a position. */
  function WithAt<T>(s: seq<T>, i: nat, x: T): seq<T>
    requires i <= |s|
  {
    s[..i] + [x] + s[i..]
  }

  /** Where an element at `source` ends up when it is dropped into gap `gap`. */
  function Landing(source: nat, gap: nat): nat {
    if gap > source then gap - 1 else gap
  }

  lemma WithoutBag<T>(s: seq<T>, i: nat)
    requires i < |s|
    ensures multiset(s) == multiset(Without(s, i)) + multiset{s[i]}
  {
    assert s == s[..i] + [s[i]] + s[i + 1..];
  }

  lemma WithAtBag<T>(s: seq<T>, i: nat, x: T)
    requires i <= |s|
    ensures multiset(WithAt(s, i, x)) == multiset(s) + multiset{x}
  {
    assert s == s[..i] + s[i..];
  }

  /** What has been inserted can be taken out again, and what has been taken out can be put back. */
  lemma TakeOut<T>(s: seq<T>, d: nat, x: T)
    requires d <= |s|
    ensures |WithAt(s, d, x)| == |s| + 1 && WithAt(s, d, x)[d] == x && Without(WithAt(s, d, x), d) == s
  {
  }

  lemma PutBack<T>(s: seq<T>, i: nat)
    requires i < |s|
    ensures WithAt(Without(s, i), i, s[i]) == s && |Without(s, i)| == |s| - 1
  {
  }
}
