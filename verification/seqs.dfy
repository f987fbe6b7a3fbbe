/**
  Facts about splitting and joining sequences. Stating them as lemmas of
  their own keeps sequence extensionality out of the proofs about the
  recursive codec definitions, where it is expensive for the solver.
*/
module Seqs {

  /** A non-empty sequence is its first element followed by the rest. */
  lemma SplitHead<T>(s: seq<T>)
    requires |s| >= 1
    ensures s == [s[0]] + s[1..]
  {
  }

  /** A sequence of one element is that element alone. */
  lemma SingletonSeq<T>(s: seq<T>)
    requires |s| == 1
    ensures s == [s[0]]
  {
  }

  /** A sequence of two elements is those two elements. */
  lemma PairSeq<T>(s: seq<T>)
    requires |s| == 2
    ensures s == [s[0], s[1]]
  {
  }

  /** A sequence of three elements is those three elements. */
  lemma ThreeSeq<T>(s: seq<T>)
    requires |s| == 3
    ensures s == [s[0], s[1], s[2]]
  {
  }

  /** A sequence of four elements is those four elements. */
  lemma FourSeq<T>(s: seq<T>)
    requires |s| == 4
    ensures s == [s[0], s[1], s[2], s[3]]
  {
  }

  /** A sequence of at least three elements is its first three followed by the rest. */
  lemma SplitGroup<T>(s: seq<T>)
    requires |s| >= 3
    ensures s == [s[0], s[1], s[2]] + s[3..]
  {
  }

  /** A sequence of at least four elements is its first four followed by the rest. */
  lemma SplitFour<T>(v: seq<T>)
    requires |v| >= 4
    ensures v == [v[0], v[1], v[2], v[3]] + v[4..]
  {
  }

  /** Dropping a prefix from a concatenation leaves the second part. */
  lemma DropPrefix<T>(p: seq<T>, w: seq<T>)
    ensures (p + w)[|p|..] == w
  {
  }

  /** Dropping i elements and then j more drops i + j. */
  lemma DropTwice<T>(s: seq<T>, i: nat, j: nat)
    requires i + j <= |s|
    ensures s[i..][j..] == s[i + j..]
  {
  }

  /** A slice of a concatenation that lies past the first part is a slice of the second part. */
  lemma SliceAfterPrefix<T>(p: seq<T>, w: seq<T>, a: nat, b: nat)
    requires |p| <= a <= b <= |p| + |w|
    ensures (p + w)[a..b] == w[a - |p|..b - |p|]
  {
  }
}
