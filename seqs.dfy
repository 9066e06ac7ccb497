/** Small facts about sequences that the tree lemmas use. */
module Seqs {
  /** The head and tail of a concatenation whose left side is not empty. */
  lemma ConsAppend<T>(a: seq<T>, b: seq<T>)
    requires a != []
    ensures (a + b)[0] == a[0] && (a + b)[1..] == a[1..] + b
  {
  }

  /** Updating the first entry of `[x] + s`. */
  lemma UpdateHead<T>(x: T, s: seq<T>, y: T)
    ensures ([x] + s)[0 := y] == [y] + s
  {
  }

  /** Updating a later entry of `[x] + s` updates `s`. */
  lemma UpdateTail<T>(x: T, s: seq<T>, k: nat, y: T)
    requires k < |s|
    ensures ([x] + s)[k + 1 := y] == [x] + s[k := y]
  {
  }

  lemma AppendAssoc<T>(a: seq<T>, b: seq<T>, c: seq<T>)
    ensures (a + b) + c == a + (b + c)
  {
  }

  /** A sequence cut at `i` and `j` is its three pieces put back together. */
  lemma Pieces<T>(s: seq<T>, i: nat, j: nat)
    requires i <= j <= |s|
    ensures s == s[..i] + (s[i..j] + s[j..])
  {
  }

  /** A pair in front of a sequence is its first entry in front of the second in front of it. */
  lemma PairCons<T>(x: T, y: T, s: seq<T>)
    ensures [x, y] + s == [x] + ([y] + s)
  {
  }

  /** The entries of a pair put in front of a sequence, and what follows them. */
  lemma PairDrop<T>(x: T, y: T, s: seq<T>)
    ensures ([x, y] + s)[0] == x && ([x, y] + s)[1] == y && ([x, y] + s)[2..] == s
  {
  }
}
