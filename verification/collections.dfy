/**
 Generic facts about sequences and sets, stated for any element type. Using them
 on sequences of lines keeps the solver away from the contents of the lines
 themselves.
 */
module Collections {

  function Min(a: nat, b: nat): nat {
    if a <= b then a else b
  }

  /** A non-empty sequence is its prefix followed by its last element. */
  lemma SplitLast<T>(s: seq<T>)
    requires |s| > 0
    ensures s == s[..|s| - 1] + [s[|s| - 1]]
  {
  }

  /** Appending one element and dropping it again gives the sequence back. */
  lemma DropAppended<T>(s: seq<T>, x: T)
    ensures (s + [x])[..|s|] == s
    ensures (s + [x])[|s|] == x
  {
  }

  /** A suffix of a non-empty sequence is the same suffix of its prefix, then its last element. */
  lemma SuffixSplitLast<T>(s: seq<T>, n: nat)
    requires n < |s|
    ensures s[n..] == s[..|s| - 1][n..] + [s[|s| - 1]]
  {
  }

  /** Taking `i` elements of a prefix of length `j >= i` is taking `i` elements. */
  lemma PrefixOfPrefix<T>(s: seq<T>, i: nat, j: nat)
    requires i <= j <= |s|
    ensures s[..j][..i] == s[..i]
  {
  }

  /** A suffix of a sequence with one element appended is the suffix, then that element. */
  lemma SuffixOfAppended<T>(s: seq<T>, x: T, n: nat)
    requires n <= |s|
    ensures (s + [x])[n..] == s[n..] + [x]
  {
  }

  /** Concatenating a pair, a pair and a singleton gives the five elements in order. */
  lemma JoinFive<T>(a: T, b: T, c: T, d: T, e: T)
    ensures [a, b] + [c, d] + [e] == [a, b, c, d, e]
  {
  }

  /** A subset is no larger than its superset. */
  lemma SubsetSize<T>(a: set<T>, b: set<T>)
    requires a <= b
    ensures |a| <= |b|
  {
    assert b == a + (b - a);
    assert a * (b - a) == {};
  }

  /** A subset as large as its superset is the superset. */
  lemma SubsetOfEqualSize<T>(a: set<T>, b: set<T>)
    requires a <= b && |a| == |b|
    ensures a == b
  {
    assert b == a + (b - a);
    assert a * (b - a) == {};
    assert |b - a| == 0;
  }
}
