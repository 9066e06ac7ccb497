/**
 * The pattern `highlightTerm` builds (content.js:411-412) is the escaped term in one capturing
 * group, with the `g` flag and, unless the term is case-sensitive, the `i` flag. Because the
 * term is escaped it matches exactly the literal term, so the matcher here is a literal,
 * leftmost search. `text.split(regex)` (content.js:438) then yields the alternating
 * non-match / match parts that the later loop classifies (content.js:446-448).
 * Case-insensitive comparison is one case fold applied character by character; the model
 * assumes the `i` flag and `toLowerCase` agree on it.
 */
module Matching {
  import opened Seqs
  import opened Wrappers

  datatype Matcher = Matcher(term: string, caseSensitive: bool, fold: char -> char)

  predicate SameChar(m: Matcher, a: char, b: char) {
    if m.caseSensitive then a == b else m.fold(a) == m.fold(b)
  }

  /** The term occurs in `s` starting at `i`. */
  predicate MatchesAt(m: Matcher, s: string, i: int) {
    0 <= i && i + |m.term| <= |s| && forall k :: 0 <= k < |m.term| ==> SameChar(m, s[i + k], m.term[k])
  }

  function Lower(fold: char -> char, s: string): (r: string)
    ensures |r| == |s| && forall k :: 0 <= k < |s| ==> r[k] == fold(s[k])
  {
    seq(|s|, k requires 0 <= k < |s| => fold(s[k]))
  }

  /** `isCaseSensitive ? part === term : part.toLowerCase() === term.toLowerCase()`. */
  predicate IsMatchPart(m: Matcher, part: string): (b: bool)
    ensures b ==> |part| == |m.term|
  {
    if m.caseSensitive then part == m.term else Lower(m.fold, part) == Lower(m.fold, m.term)
  }

  /** The classification of a part agrees with the matcher applied to that stretch of text. */
  lemma MatchPartAt(m: Matcher, s: string, i: int)
    requires 0 <= i && i + |m.term| <= |s|
    ensures MatchesAt(m, s, i) <==> IsMatchPart(m, s[i..i + |m.term|])
  {
    var part := s[i..i + |m.term|];
    if MatchesAt(m, s, i) {
      if m.caseSensitive {
        assert part == m.term;
      } else {
        assert Lower(m.fold, part) == Lower(m.fold, m.term);
      }
    }
    if IsMatchPart(m, part) {
      forall k | 0 <= k < |m.term| ensures SameChar(m, s[i + k], m.term[k]) {
        assert part[k] == s[i + k];
        if !m.caseSensitive {
          assert Lower(m.fold, part)[k] == Lower(m.fold, m.term)[k];
        }
      }
    }
  }

  lemma MatchPartAtStart(m: Matcher, part: string)
    requires IsMatchPart(m, part)
    ensures |part| == |m.term| && MatchesAt(m, part, 0)
  {
    assert |Lower(m.fold, part)| == |part|;
    assert part[0..|m.term|] == part;
    MatchPartAt(m, part, 0);
  }

  /** An occurrence in `s[q..]` is an occurrence in `s`, `q` characters further on. */
  lemma MatchShift(m: Matcher, s: string, q: nat, j: int)
    requires q <= |s| && 0 <= j
    ensures MatchesAt(m, s[q..], j) <==> MatchesAt(m, s, q + j)
  {
    var t := s[q..];
    if 0 <= j && j + |m.term| <= |t| {
      forall k | 0 <= k < |m.term|
        ensures SameChar(m, t[j + k], m.term[k]) <==> SameChar(m, s[q + j + k], m.term[k])
      {
        assert t[j + k] == s[q + j + k];
      }
    }
  }

  /** An occurrence inside a stretch of `s` is an occurrence in `s`. */
  lemma MatchInside(m: Matcher, s: string, lo: nat, hi: nat, j: int)
    requires lo <= hi <= |s|
    requires MatchesAt(m, s[lo..hi], j)
    ensures MatchesAt(m, s, lo + j)
  {
    var t := s[lo..hi];
    forall k | 0 <= k < |m.term| ensures SameChar(m, s[lo + j + k], m.term[k]) {
      assert t[j + k] == s[lo + j + k];
    }
  }

  /** The leftmost occurrence starting at or after `from`: one step of the regex engine. */
  function FindFrom(m: Matcher, s: string, from: nat): (r: Option<nat>)
    decreases |s| - from
    ensures r.Some? ==> from <= r.value && r.value + |m.term| <= |s|
  {
    if from + |m.term| > |s| then None
    else if MatchesAt(m, s, from) then Some(from)
    else FindFrom(m, s, from + 1)
  }

  /** `FindFrom` finds the leftmost occurrence at or after `from`, and only misses when there is none. */
  lemma {:induction false} FindFromLeftmost(m: Matcher, s: string, from: nat)
    decreases |s| - from
    ensures var r := FindFrom(m, s, from);
            && (r.Some? ==> MatchesAt(m, s, r.value)
                            && forall j :: from <= j < r.value ==> !MatchesAt(m, s, j))
            && (r.None? ==> forall j :: from <= j ==> !MatchesAt(m, s, j))
  {
    if from + |m.term| > |s| {
    } else if MatchesAt(m, s, from) {
    } else {
      FindFromLeftmost(m, s, from + 1);
    }
  }

  /** What the search finds is an occurrence. */
  lemma FoundMatches(m: Matcher, s: string, p: nat)
    requires FindFrom(m, s, 0) == Some(p)
    ensures MatchesAt(m, s, p)
  {
    FindFromLeftmost(m, s, 0);
  }

  /** `node.nodeValue.match(regex)` is truthy: the term occurs somewhere. */
  function HasMatch(m: Matcher, s: string): (b: bool)
    ensures b <==> exists i :: MatchesAt(m, s, i)
  {
    var r := FindFrom(m, s, 0);
    FindFromLeftmost(m, s, 0);
    if r.Some? then true
    else
      assert forall i :: !MatchesAt(m, s, i) by {
        forall i ensures !MatchesAt(m, s, i) {
          if 0 <= i { } else { }
        }
      }
      false
  }

  /**
   * `s.split(regex)` with one capturing group: the text before the leftmost occurrence, the
   * occurrence itself, then the split of the rest after it; the scan resumes after the
   * occurrence, so occurrences never overlap.
   */
  function Split(m: Matcher, s: string): seq<string>
    requires |m.term| > 0
    decreases |s|
  {
    match FindFrom(m, s, 0)
    case None => [s]
    case Some(p) => [s[..p], s[p..p + |m.term|]] + Split(m, s[p + |m.term|..])
  }

  function Concat(parts: seq<string>): string {
    if parts == [] then [] else parts[0] + Concat(parts[1..])
  }

  /** Where part `k` starts in the concatenation. */
  function Offset(parts: seq<string>, k: nat): nat
    requires k <= |parts|
  {
    |Concat(parts[..k])|
  }

  lemma {:induction false} ConcatAppend(a: seq<string>, b: seq<string>)
    ensures Concat(a + b) == Concat(a) + Concat(b)
  {
    if a != [] {
      assert (a + b)[1..] == a[1..] + b;
      ConcatAppend(a[1..], b);
    } else {
      assert a + b == b;
    }
  }

  /** Part `k` is the stretch of the concatenation at its offset. */
  lemma PartAt(parts: seq<string>, k: nat)
    requires k < |parts|
    ensures Offset(parts, k) + |parts[k]| <= |Concat(parts)|
    ensures Concat(parts)[Offset(parts, k)..Offset(parts, k) + |parts[k]|] == parts[k]
  {
    assert parts == parts[..k] + [parts[k]] + parts[k + 1..];
    ConcatAppend(parts[..k] + [parts[k]], parts[k + 1..]);
    ConcatAppend(parts[..k], [parts[k]]);
    assert Concat([parts[k]]) == parts[k] + Concat([]);
  }

  /** The offsets of the parts after a leading pair are shifted by the pair's length. */
  lemma OffsetAfterPair(parts: seq<string>, k: nat)
    requires 2 <= k <= |parts|
    ensures Offset(parts, k) == |parts[0]| + |parts[1]| + Offset(parts[2..], k - 2)
  {
    assert parts[..k] == [parts[0], parts[1]] + parts[2..][..k - 2];
    ConcatAppend([parts[0], parts[1]], parts[2..][..k - 2]);
    assert Concat([parts[0], parts[1]]) == parts[0] + (parts[1] + Concat([]));
  }

  /** No occurrence of the term starts in `[lo, hi)`. */
  ghost predicate NoMatchStartsIn(m: Matcher, s: string, lo: int, hi: int) {
    forall j :: lo <= j < hi ==> !MatchesAt(m, s, j)
  }

  ghost predicate OddPartsMatch(m: Matcher, parts: seq<string>) {
    forall k :: 0 <= k < |parts| && k % 2 == 1 ==> IsMatchPart(m, parts[k])
  }

  ghost predicate EvenPartsLeftmost(m: Matcher, s: string, parts: seq<string>) {
    forall k :: 0 <= k < |parts| && k % 2 == 0 ==>
      NoMatchStartsIn(m, s, Offset(parts, k), Offset(parts, k) + |parts[k]|)
  }

  /**
   * The reference description of a split: the parts alternate non-match / match, they
   * concatenate back to the text, every odd part is a match, and no occurrence of the term
   * starts inside an even part (so each match is the leftmost one after the previous match).
   */
  ghost predicate IsLeftmostSplit(m: Matcher, s: string, parts: seq<string>) {
    && |parts| % 2 == 1
    && Concat(parts) == s
    && OddPartsMatch(m, parts)
    && EvenPartsLeftmost(m, s, parts)
  }

  lemma ConcatCons(a: string, rest: seq<string>)
    ensures Concat([a] + rest) == a + Concat(rest)
  {
    assert ([a] + rest)[1..] == rest;
  }

  /** One step of `Split` when the search finds the term at `p`. */
  lemma SplitAt(m: Matcher, s: string, p: nat)
    requires |m.term| > 0 && FindFrom(m, s, 0) == Some(p)
    ensures p + |m.term| <= |s|
    ensures Split(m, s) == [s[..p], s[p..p + |m.term|]] + Split(m, s[p + |m.term|..])
  {
  }

  lemma {:induction false} SplitOdd(m: Matcher, s: string)
    requires |m.term| > 0
    ensures |Split(m, s)| % 2 == 1
    decreases |s|
  {
    var r := FindFrom(m, s, 0);
    if r.Some? {
      var p := r.value;
      var n := |m.term|;
      var rest := s[p + n..];
      SplitOdd(m, rest);
      var tail := Split(m, rest);
      assert Split(m, s) == [s[..p], s[p..p + n]] + tail;
      ParityShift(|tail|);
    }
  }

  /** Two more parts keep the parity; kept apart so the solver does modular arithmetic on its own. */
  lemma ParityShift(k: int)
    ensures (k + 2) % 2 == k % 2
  {
  }

  /** An odd number of parts is one part, or at least three. */
  lemma OddCount(k: nat)
    requires k % 2 == 1
    ensures k == 1 || k >= 3
  {
  }

  lemma {:induction false} SplitConcat(m: Matcher, s: string)
    requires |m.term| > 0
    ensures Concat(Split(m, s)) == s
    decreases |s|
  {
    var r := FindFrom(m, s, 0);
    if r.Some? {
      var p, n := r.value, |m.term|;
      SplitConcat(m, s[p + n..]);
      SplitAt(m, s, p);
      ConcatPair(s[..p], s[p..p + n], Split(m, s[p + n..]));
      Pieces(s, p, p + n);
    } else {
      ConcatCons(s, []);
      assert [s] + [] == [s];
    }
  }

  /** Joining a pair in front of more parts. */
  lemma ConcatPair(a: string, b: string, tail: seq<string>)
    ensures Concat([a, b] + tail) == a + (b + Concat(tail))
  {
    ConcatCons(b, tail);
    ConcatCons(a, [b] + tail);
    PairCons(a, b, tail);
  }

  lemma {:induction false} SplitOddParts(m: Matcher, s: string)
    requires |m.term| > 0
    ensures OddPartsMatch(m, Split(m, s))
    decreases |s|
  {
    var r := FindFrom(m, s, 0);
    if r.Some? {
      var p, n := r.value, |m.term|;
      SplitOddParts(m, s[p + n..]);
      SplitAt(m, s, p);
      FoundMatches(m, s, p);
      MatchPartAt(m, s, p);
      OddPartsCons(m, s[..p], s[p..p + n], Split(m, s[p + n..]));
    }
  }

  /** Putting a non-match and a match in front keeps every odd part a match. */
  lemma OddPartsCons(m: Matcher, a: string, b: string, tail: seq<string>)
    requires IsMatchPart(m, b) && OddPartsMatch(m, tail)
    ensures OddPartsMatch(m, [a, b] + tail)
  {
    var parts := [a, b] + tail;
    forall k | 0 <= k < |parts| && k % 2 == 1 ensures IsMatchPart(m, parts[k]) {
      if k > 1 {
        ParityShift(k - 2);
        assert parts[k] == tail[k - 2];
      }
    }
  }

  /** No occurrence starts inside the leading non-match part. */
  lemma FirstPartClear(m: Matcher, s: string)
    requires |m.term| > 0
    ensures NoMatchStartsIn(m, s, 0, |Split(m, s)[0]|)
  {
    var r := FindFrom(m, s, 0);
    if r.Some? {
      SplitAt(m, s, r.value);
    }
    FindFromLeftmost(m, s, 0);
  }

  lemma {:induction false} SplitEvenParts(m: Matcher, s: string)
    requires |m.term| > 0
    ensures EvenPartsLeftmost(m, s, Split(m, s))
    decreases |s|
  {
    var r := FindFrom(m, s, 0);
    if r.Some? {
      var p, n := r.value, |m.term|;
      SplitEvenParts(m, s[p + n..]);
      SplitAt(m, s, p);
      ClearBefore(m, s, p);
      EvenPartsCons(m, s, s[..p], s[p..p + n], p + n, Split(m, s[p + n..]));
    } else {
      FirstPartClear(m, s);
      assert Split(m, s)[..0] == [];
    }
  }

  /** No occurrence starts before the one the search finds. */
  lemma ClearBefore(m: Matcher, s: string, p: nat)
    requires FindFrom(m, s, 0) == Some(p)
    ensures NoMatchStartsIn(m, s, 0, p)
  {
    FindFromLeftmost(m, s, 0);
  }

  /** The even parts are clear when the first is and the ones after the first pair are, as parts of the rest. */
  lemma EvenPartsCons(m: Matcher, s: string, a: string, b: string, q: nat, rest: seq<string>)
    requires q == |a| + |b| && q <= |s| && NoMatchStartsIn(m, s, 0, |a|)
    requires EvenPartsLeftmost(m, s[q..], rest)
    ensures EvenPartsLeftmost(m, s, [a, b] + rest)
  {
    var parts := [a, b] + rest;
    PairDrop(a, b, rest);
    assert parts[..0] == [];
    forall k | 0 <= k < |parts| && k % 2 == 0
      ensures NoMatchStartsIn(m, s, Offset(parts, k), Offset(parts, k) + |parts[k]|)
    {
      if k >= 2 {
        EvenPartAfterPair(m, s, parts, q, k);
      }
    }
  }

  /** An even part after the first pair is clear when it is clear as a part of the rest's split. */
  lemma EvenPartAfterPair(m: Matcher, s: string, parts: seq<string>, q: nat, k: nat)
    requires 2 <= k < |parts| && k % 2 == 0
    requires q == |parts[0]| + |parts[1]| && q <= |s|
    requires EvenPartsLeftmost(m, s[q..], parts[2..])
    ensures NoMatchStartsIn(m, s, Offset(parts, k), Offset(parts, k) + |parts[k]|)
  {
    var tail := parts[2..];
    OffsetAfterPair(parts, k);
    ParityShift(k - 2);
    var lo := Offset(tail, k - 2);
    assert tail[k - 2] == parts[k];
    assert NoMatchStartsIn(m, s[q..], lo, lo + |parts[k]|);
    NoMatchShift(m, s, q, lo, lo + |parts[k]|);
  }

  /** A stretch of `s[q..]` is free of occurrences exactly when the same stretch of `s`, `q` on, is. */
  lemma NoMatchShift(m: Matcher, s: string, q: nat, lo: nat, hi: int)
    requires q <= |s|
    ensures NoMatchStartsIn(m, s[q..], lo, hi) <==> NoMatchStartsIn(m, s, q + lo, q + hi)
  {
    forall j | lo <= j < hi ensures MatchesAt(m, s[q..], j) <==> MatchesAt(m, s, q + j) {
      MatchShift(m, s, q, j);
    }
    if NoMatchStartsIn(m, s[q..], lo, hi) {
      forall j | q + lo <= j < q + hi ensures !MatchesAt(m, s, j) {
        assert !MatchesAt(m, s[q..], j - q);
      }
    }
  }

  /** `Split` meets the reference description. */
  lemma SplitIsLeftmost(m: Matcher, s: string)
    requires |m.term| > 0
    ensures IsLeftmostSplit(m, s, Split(m, s))
  {
    SplitOdd(m, s);
    SplitConcat(m, s);
    SplitOddParts(m, s);
    SplitEvenParts(m, s);
  }

  /** The tail of a leftmost split after its first pair is a leftmost split of the rest. */
  lemma LeftmostTail(m: Matcher, s: string, parts: seq<string>, q: nat)
    requires IsLeftmostSplit(m, s, parts) && |parts| >= 3
    requires q == |parts[0]| + |parts[1]|
    ensures q <= |s| && IsLeftmostSplit(m, s[q..], parts[2..])
  {
    var tail := parts[2..];
    ParityShift(|tail|);
    assert parts == [parts[0], parts[1]] + tail;
    ConcatAppend([parts[0], parts[1]], tail);
    assert Concat([parts[0], parts[1]]) == parts[0] + (parts[1] + Concat([]));
    assert s == parts[0] + parts[1] + Concat(tail);
    assert Concat(tail) == s[q..];
    forall k | 0 <= k < |tail| && k % 2 == 1 ensures IsMatchPart(m, tail[k]) {
      ParityShift(k);
      assert tail[k] == parts[k + 2];
    }
    forall k | 0 <= k < |tail| && k % 2 == 0
      ensures NoMatchStartsIn(m, s[q..], Offset(tail, k), Offset(tail, k) + |tail[k]|)
    {
      OffsetAfterPair(parts, k + 2);
      ParityShift(k);
      assert tail[k] == parts[k + 2];
      assert NoMatchStartsIn(m, s, Offset(parts, k + 2), Offset(parts, k + 2) + |parts[k + 2]|);
      NoMatchShift(m, s, q, Offset(tail, k), Offset(tail, k) + |tail[k]|);
    }
  }

  /** A search finds an occurrence when none starts before it. */
  lemma SearchFindsAt(m: Matcher, s: string, g: nat)
    requires MatchesAt(m, s, g) && NoMatchStartsIn(m, s, 0, g)
    ensures FindFrom(m, s, 0) == Some(g)
  {
    FindFromLeftmost(m, s, 0);
  }

  /** The first two parts of a split with a match sit at the start of the text. */
  lemma LeftmostFirstPair(m: Matcher, s: string, parts: seq<string>)
    requires |parts| >= 3 && Concat(parts) == s && IsMatchPart(m, parts[1])
    ensures |parts[0]| + |m.term| <= |s| && parts[0] == s[..|parts[0]|]
    ensures parts[1] == s[|parts[0]|..|parts[0]| + |m.term|]
  {
    var g := parts[0];
    assert parts[..0] == [];
    PartAt(parts, 0);
    PartAt(parts, 1);
    assert parts[..1] == [g] && Concat([g]) == g + Concat([]);
    MatchPartAtStart(m, parts[1]);
  }

  /** In a leftmost split with a match, the search finds that match right after the first part. */
  lemma LeftmostFirstMatch(m: Matcher, s: string, parts: seq<string>)
    requires |m.term| > 0
    requires IsLeftmostSplit(m, s, parts) && |parts| >= 3
    ensures FindFrom(m, s, 0) == Some(|parts[0]|)
    ensures |parts[0]| + |m.term| <= |s| && parts[0] == s[..|parts[0]|]
    ensures parts[1] == s[|parts[0]|..|parts[0]| + |m.term|]
  {
    var g := |parts[0]|;
    assert IsMatchPart(m, parts[1]);
    LeftmostFirstPair(m, s, parts);
    MatchPartAt(m, s, g);
    assert parts[..0] == [];
    assert NoMatchStartsIn(m, s, 0, g);
    SearchFindsAt(m, s, g);
  }

  /** A leftmost split with no match is the text alone, and the search finds nothing. */
  lemma LeftmostNoMatch(m: Matcher, s: string, parts: seq<string>)
    requires |m.term| > 0
    requires IsLeftmostSplit(m, s, parts) && |parts| == 1
    ensures parts == [s] && FindFrom(m, s, 0).None?
  {
    assert parts[..0] == [];
    assert NoMatchStartsIn(m, s, 0, |parts[0]|);
    assert parts == [parts[0]];
    assert Concat(parts) == parts[0] + Concat([]);
    FindFromLeftmost(m, s, 0);
  }

  /** The reference description determines the split: `Split` is the only one. */
  lemma {:induction false} LeftmostSplitIsUnique(m: Matcher, s: string, parts: seq<string>)
    requires |m.term| > 0
    requires IsLeftmostSplit(m, s, parts)
    ensures parts == Split(m, s)
    decreases |s|
  {
    OddCount(|parts|);
    if |parts| >= 3 {
      var q := LeftmostStep(m, s, parts);
      LeftmostSplitIsUnique(m, s[q..], parts[2..]);
    } else {
      LeftmostNoMatch(m, s, parts);
    }
  }

  /** One step of `LeftmostSplitIsUnique`: the first pair is the search's, and the rest is a leftmost split. */
  lemma LeftmostStep(m: Matcher, s: string, parts: seq<string>) returns (q: nat)
    requires |m.term| > 0
    requires IsLeftmostSplit(m, s, parts) && |parts| >= 3
    ensures 0 < q <= |s| && IsLeftmostSplit(m, s[q..], parts[2..])
    ensures parts[2..] == Split(m, s[q..]) ==> parts == Split(m, s)
  {
    LeftmostFirstMatch(m, s, parts);
    var g := |parts[0]|;
    q := g + |m.term|;
    SplitAt(m, s, g);
    LeftmostTail(m, s, parts, q);
    assert parts == [parts[0], parts[1]] + parts[2..];
  }

  /**
   * What the classification loop relies on: the parts concatenate back to the text, a part is
   * classified as a match exactly when it is an odd (captured) part, and no non-match part
   * contains an occurrence of the term.
   */
  lemma SplitParts(m: Matcher, s: string)
    requires |m.term| > 0
    ensures var parts := Split(m, s);
            && |parts| % 2 == 1
            && Concat(parts) == s
            && (forall k :: 0 <= k < |parts| ==> (IsMatchPart(m, parts[k]) <==> k % 2 == 1))
            && (forall k, i :: 0 <= k < |parts| && k % 2 == 0 ==> !MatchesAt(m, parts[k], i))
  {
    var parts := Split(m, s);
    SplitIsLeftmost(m, s);
    forall k, i | 0 <= k < |parts| && k % 2 == 0 ensures !MatchesAt(m, parts[k], i) {
      if MatchesAt(m, parts[k], i) {
        PartAt(parts, k);
        var lo := Offset(parts, k);
        MatchInside(m, s, lo, lo + |parts[k]|, i);
        assert false;
      }
    }
    forall k | 0 <= k < |parts| && k % 2 == 0 ensures !IsMatchPart(m, parts[k]) {
      if IsMatchPart(m, parts[k]) {
        MatchPartAtStart(m, parts[k]);
        assert false;
      }
    }
  }

  /** A text has a match exactly when its split has more than the one part. */
  lemma SplitHasMatch(m: Matcher, s: string)
    requires |m.term| > 0
    ensures HasMatch(m, s) <==> |Split(m, s)| > 1
  {
  }
}
