/**
 * One pass of `highlightTerm` (content.js:408-482) over the page. The walker visits the text
 * leaves of `document.body` in document order; a leaf is a candidate when it is outside the
 * panel, its parent is not SCRIPT or STYLE, and the term occurs in it (content.js:417-426). Each
 * candidate is replaced by the split of its text: plain text for the non-match parts and a span
 * of the term for each match part (content.js:433-468).
 */
module Scan {
  import opened Matching
  import opened Dom
  import opened Seqs

  /** Where a text leaf sits: inside the panel or not, and the tag name of its parent. */
  datatype Ctx = Ctx(inPanel: bool, parentTag: string)

  /** The children of `document.body`. */
  const BodyCtx := Ctx(false, "BODY")

  /** The walker keeps a leaf that is outside the panel and not the text of a SCRIPT or STYLE. */
  predicate Eligible(c: Ctx) {
    !c.inPanel && c.parentTag != "SCRIPT" && c.parentTag != "STYLE"
  }

  /** The context of the children of `n`; a highlight is a SPAN. */
  function ChildCtx(c: Ctx, n: Node): Ctx
    requires !n.Text?
  {
    if n.Highlight? then Ctx(c.inPanel, "SPAN") else Ctx(c.inPanel || n.panel, n.tag)
  }

  /** What one call paints with: the matcher, the term id and the span style. */
  datatype Painter = Painter(m: Matcher, owner: int, style: Style)

  /** The node one part becomes: a fresh inactive span of the term for a match, text otherwise. */
  function PartNode(p: Painter, part: string): Node {
    if IsMatchPart(p.m, part) then Highlight(p.owner, false, p.style, [Text(part)]) else Text(part)
  }

  /** The fragment built from the parts, in order. */
  function Paint(p: Painter, parts: seq<string>): (r: seq<Node>)
    ensures |r| == |parts|
  {
    seq(|parts|, i requires 0 <= i < |parts| => PartNode(p, parts[i]))
  }

  /** How many parts are classed as a match: the number of `matchCount++` for them. */
  function MatchCount(m: Matcher, parts: seq<string>): nat {
    if parts == [] then 0
    else (if IsMatchPart(m, parts[0]) then 1 else 0) + MatchCount(m, parts[1..])
  }

  /**
   * What a candidate leaf is replaced with: the painted split when some part is a match
   * (`hasMatch`), otherwise the leaf itself.
   */
  function Replacement(p: Painter, s: string): seq<Node>
    requires |p.m.term| > 0
  {
    var parts := Split(p.m, s);
    if MatchCount(p.m, parts) > 0 then Paint(p, parts) else [Text(s)]
  }

  /** The scan as one recursive rewrite of the forest. */
  function ScanNodes(ns: seq<Node>, c: Ctx, p: Painter): seq<Node>
    requires |p.m.term| > 0
    decreases ns
  {
    if ns == [] then []
    else if ns[0].Text? then
      (if Eligible(c) && HasMatch(p.m, ns[0].value) then Replacement(p, ns[0].value) else [ns[0]])
      + ScanNodes(ns[1..], c, p)
    else if ns[0].Highlight? then
      [Highlight(ns[0].owner, ns[0].active, ns[0].style, ScanNodes(ns[0].children, ChildCtx(c, ns[0]), p))]
      + ScanNodes(ns[1..], c, p)
    else
      [Element(ns[0].tag, ns[0].panel, ScanNodes(ns[0].children, ChildCtx(c, ns[0]), p))]
      + ScanNodes(ns[1..], c, p)
  }

  /** A text leaf as the walker reports it, with where it sits. */
  datatype Leaf = Leaf(text: string, ctx: Ctx)

  /** The walker's sequence: every text leaf, in document order. */
  function Leaves(ns: seq<Node>, c: Ctx): seq<Leaf>
    decreases ns
  {
    if ns == [] then []
    else if ns[0].Text? then [Leaf(ns[0].value, c)] + Leaves(ns[1..], c)
    else Leaves(ns[0].children, ChildCtx(c, ns[0])) + Leaves(ns[1..], c)
  }

  /** The walker pushes this leaf onto `nodesToReplace`. */
  predicate Picks(m: Matcher, l: Leaf) {
    Eligible(l.ctx) && HasMatch(m, l.text)
  }

  /** The texts of the leaves the walker collects, in order. */
  function Candidates(m: Matcher, ls: seq<Leaf>): seq<string> {
    if ls == [] then []
    else (if Picks(m, ls[0]) then [ls[0].text] else []) + Candidates(m, ls[1..])
  }

  /** The fragments for a list of candidate texts. */
  function FragsOf(p: Painter, texts: seq<string>): (r: seq<seq<Node>>)
    requires |p.m.term| > 0
    ensures |r| == |texts|
  {
    seq(|texts|, i requires 0 <= i < |texts| => Replacement(p, texts[i]))
  }

  /** The total `matchCount` over a list of candidate texts. */
  function Hits(m: Matcher, texts: seq<string>): nat
    requires |m.term| > 0
  {
    if texts == [] then 0 else MatchCount(m, Split(m, texts[0])) + Hits(m, texts[1..])
  }

  /**
   * `replaceChild(fragment, node)` for the collected nodes: walking the forest in document
   * order, each leaf the walker picked takes the next fragment. Returns the new forest and the
   * fragments left over.
   */
  function Substitute(ns: seq<Node>, c: Ctx, m: Matcher, frags: seq<seq<Node>>): (seq<Node>, seq<seq<Node>>)
    decreases ns
  {
    if ns == [] then ([], frags)
    else if ns[0].Text? then
      var picked := Picks(m, Leaf(ns[0].value, c)) && frags != [];
      var head := if picked then frags[0] else [ns[0]];
      var tail := Substitute(ns[1..], c, m, if picked then frags[1..] else frags);
      (head + tail.0, tail.1)
    else
      var inner := Substitute(ns[0].children, ChildCtx(c, ns[0]), m, frags);
      var node := if ns[0].Highlight? then Highlight(ns[0].owner, ns[0].active, ns[0].style, inner.0)
                  else Element(ns[0].tag, ns[0].panel, inner.0);
      var tail := Substitute(ns[1..], c, m, inner.1);
      ([node] + tail.0, tail.1)
  }

  // ----- Sequence bookkeeping -----

  lemma {:induction false} CandidatesAppend(m: Matcher, a: seq<Leaf>, b: seq<Leaf>)
    ensures Candidates(m, a + b) == Candidates(m, a) + Candidates(m, b)
  {
    if a != [] {
      assert (a + b)[0] == a[0] && (a + b)[1..] == a[1..] + b;
      CandidatesAppend(m, a[1..], b);
    } else {
      assert a + b == b;
    }
  }

  lemma FragsOfAppend(p: Painter, a: seq<string>, b: seq<string>)
    requires |p.m.term| > 0
    ensures FragsOf(p, a + b) == FragsOf(p, a) + FragsOf(p, b)
  {
  }

  lemma {:induction false} HitsAppend(m: Matcher, a: seq<string>, b: seq<string>)
    requires |m.term| > 0
    ensures Hits(m, a + b) == Hits(m, a) + Hits(m, b)
  {
    if a != [] {
      assert (a + b)[0] == a[0] && (a + b)[1..] == a[1..] + b;
      HitsAppend(m, a[1..], b);
    } else {
      assert a + b == b;
    }
  }

  lemma {:induction false} MatchCountAppend(m: Matcher, a: seq<string>, b: seq<string>)
    ensures MatchCount(m, a + b) == MatchCount(m, a) + MatchCount(m, b)
  {
    if a != [] {
      assert (a + b)[0] == a[0] && (a + b)[1..] == a[1..] + b;
      MatchCountAppend(m, a[1..], b);
    } else {
      assert a + b == b;
    }
  }

  lemma LeavesAppend(a: seq<Node>, b: seq<Node>, c: Ctx)
    ensures Leaves(a + b, c) == Leaves(a, c) + Leaves(b, c)
    decreases a
  {
    if a != [] {
      assert (a + b)[0] == a[0] && (a + b)[1..] == a[1..] + b;
      LeavesAppend(a[1..], b, c);
    } else {
      assert a + b == b;
    }
  }

  // ----- What a painted split is -----

  /** The fragment reads back as the concatenation of the parts. */
  lemma {:induction false} PaintText(p: Painter, parts: seq<string>)
    ensures TextContent(Paint(p, parts)) == Concat(parts)
  {
    if parts != [] {
      PaintText(p, parts[1..]);
      assert Paint(p, parts) == [PartNode(p, parts[0])] + Paint(p, parts[1..]);
      TextContentAppend([PartNode(p, parts[0])], Paint(p, parts[1..]));
      assert TextContent([Text(parts[0])]) == parts[0] + TextContent([]);
      assert TextContent([PartNode(p, parts[0])]) == parts[0];
    }
  }

  /** The fragment holds one inactive span of the term per match part, and none of any other term. */
  lemma {:induction false} PaintOwned(p: Painter, parts: seq<string>, id: int)
    ensures Owned(Paint(p, parts), id) == if id == p.owner then Falses(MatchCount(p.m, parts)) else []
  {
    if parts != [] {
      PaintOwned(p, parts[1..], id);
      assert Paint(p, parts) == [PartNode(p, parts[0])] + Paint(p, parts[1..]);
      OwnedAppend([PartNode(p, parts[0])], Paint(p, parts[1..]), id);
      OwnedSingle(PartNode(p, parts[0]), id);
      assert Owned([Text(parts[0])], id) == [];
    }
  }

  /** The spans of a fresh fragment are inactive: it has no markers to strip. */
  lemma {:induction false} PaintStripped(p: Painter, parts: seq<string>)
    ensures Strip(Paint(p, parts)) == Paint(p, parts)
  {
    if parts != [] {
      PaintStripped(p, parts[1..]);
      assert Paint(p, parts) == [PartNode(p, parts[0])] + Paint(p, parts[1..]);
      StripAppend([PartNode(p, parts[0])], Paint(p, parts[1..]));
      assert Strip([Text(parts[0])]) == [Text(parts[0])];
    }
  }

  /** When the term occurs in the text, its replacement is the painted split and holds a span. */
  lemma ReplacementPaints(p: Painter, s: string)
    requires |p.m.term| > 0 && HasMatch(p.m, s)
    ensures MatchCount(p.m, Split(p.m, s)) > 0 && Replacement(p, s) == Paint(p, Split(p.m, s))
    ensures HasHighlightChild(Replacement(p, s))
  {
    var parts := Split(p.m, s);
    SplitParts(p.m, s);
    SplitHasMatch(p.m, s);
    assert IsMatchPart(p.m, parts[1]);
    assert parts == parts[..1] + parts[1..];
    MatchCountAppend(p.m, parts[..1], parts[1..]);
    assert MatchCount(p.m, parts[1..]) >= 1 by {
      assert parts[1..][0] == parts[1];
    }
    assert Replacement(p, s)[1] == PartNode(p, parts[1]);
  }

  /** A replacement reads back as the leaf it replaces. */
  lemma ReplacementText(p: Painter, s: string)
    requires |p.m.term| > 0
    ensures TextContent(Replacement(p, s)) == s
  {
    var parts := Split(p.m, s);
    if MatchCount(p.m, parts) > 0 {
      PaintText(p, parts);
      SplitParts(p.m, s);
    } else {
      assert TextContent([Text(s)]) == s + TextContent([]);
    }
  }

  /** A replacement holds exactly the term's `MatchCount` inactive spans and no span of another term. */
  lemma ReplacementOwned(p: Painter, s: string, id: int)
    requires |p.m.term| > 0
    ensures Owned(Replacement(p, s), id) ==
      if id == p.owner then Falses(MatchCount(p.m, Split(p.m, s))) else []
  {
    var parts := Split(p.m, s);
    if MatchCount(p.m, parts) > 0 {
      PaintOwned(p, parts, id);
    } else {
      assert Owned([Text(s)], id) == [];
    }
  }

  lemma ReplacementStripped(p: Painter, s: string)
    requires |p.m.term| > 0
    ensures Strip(Replacement(p, s)) == Replacement(p, s)
  {
    if MatchCount(p.m, Split(p.m, s)) > 0 {
      PaintStripped(p, Split(p.m, s));
    } else {
      assert Strip([Text(s)]) == [Text(s)];
    }
  }

  // ----- The scan -----

  /** The scan works leaf by leaf: the siblings of a rewritten leaf are rewritten on their own. */
  lemma {:induction false} ScanAppend(a: seq<Node>, b: seq<Node>, c: Ctx, p: Painter)
    requires |p.m.term| > 0
    ensures ScanNodes(a + b, c, p) == ScanNodes(a, c, p) + ScanNodes(b, c, p)
  {
    if a != [] {
      ScanAppend(a[1..], b, c, p);
      ConsAppend(a, b);
      ScanCons(a + b, c, p);
      ScanCons(a, c, p);
      AppendAssoc(ScanNodes([a[0]], c, p), ScanNodes(a[1..], c, p), ScanNodes(b, c, p));
    } else {
      assert a + b == b;
    }
  }

  /** The scan of a list is the scan of its first node followed by the scan of the rest. */
  lemma ScanCons(ns: seq<Node>, c: Ctx, p: Painter)
    requires |p.m.term| > 0 && ns != []
    ensures ScanNodes(ns, c, p) == ScanNodes([ns[0]], c, p) + ScanNodes(ns[1..], c, p)
  {
    var h := [ns[0]];
    assert h[0] == ns[0] && h[1..] == [] && ScanNodes(h[1..], c, p) == [];
    var x := if ns[0].Text? then
        (if Eligible(c) && HasMatch(p.m, ns[0].value) then Replacement(p, ns[0].value) else [ns[0]])
      else if ns[0].Highlight? then
        [Highlight(ns[0].owner, ns[0].active, ns[0].style, ScanNodes(ns[0].children, ChildCtx(c, ns[0]), p))]
      else
        [Element(ns[0].tag, ns[0].panel, ScanNodes(ns[0].children, ChildCtx(c, ns[0]), p))];
    assert ScanNodes(h, c, p) == x + [];
    assert x + [] == x;
    assert ScanNodes(ns, c, p) == x + ScanNodes(ns[1..], c, p);
  }

  /**
   * The two phases of `highlightTerm` agree with the recursive scan: putting the fragments of the
   * collected candidates in, one per collected leaf and in order, yields `ScanNodes`.
   */
  lemma {:induction false} SubstituteScan(ns: seq<Node>, c: Ctx, p: Painter, rest: seq<seq<Node>>)
    requires |p.m.term| > 0
    ensures Substitute(ns, c, p.m, FragsOf(p, Candidates(p.m, Leaves(ns, c))) + rest) == (ScanNodes(ns, c, p), rest)
    decreases ns
  {
    if ns == [] {
      assert FragsOf(p, []) + rest == rest;
    } else if ns[0].Text? {
      SubstituteScan(ns[1..], c, p, rest);
      SubstituteText(ns, c, p, rest);
    } else {
      var tailFrags := FragsOf(p, Candidates(p.m, Leaves(ns[1..], c)));
      SubstituteScan(ns[0].children, ChildCtx(c, ns[0]), p, tailFrags + rest);
      SubstituteScan(ns[1..], c, p, rest);
      SubstituteInner(ns, c, p, rest);
    }
  }

  /** The step of `SubstituteScan` at a text leaf. */
  lemma SubstituteText(ns: seq<Node>, c: Ctx, p: Painter, rest: seq<seq<Node>>)
    requires |p.m.term| > 0 && ns != [] && ns[0].Text?
    requires Substitute(ns[1..], c, p.m, FragsOf(p, Candidates(p.m, Leaves(ns[1..], c))) + rest)
             == (ScanNodes(ns[1..], c, p), rest)
    ensures Substitute(ns, c, p.m, FragsOf(p, Candidates(p.m, Leaves(ns, c))) + rest) == (ScanNodes(ns, c, p), rest)
  {
    var m := p.m;
    var tailCands := Candidates(m, Leaves(ns[1..], c));
    var frags := FragsOf(p, Candidates(m, Leaves(ns, c))) + rest;
    var l := Leaf(ns[0].value, c);
    assert Leaves(ns, c) == [l] + Leaves(ns[1..], c);
    CandidatesAppend(m, [l], Leaves(ns[1..], c));
    var headCands := Candidates(m, [l]);
    assert headCands == (if Picks(m, l) then [l.text] else []) + Candidates(m, []);
    FragsOfAppend(p, headCands, tailCands);
    var later := FragsOf(p, tailCands) + rest;
    AppendAssoc(FragsOf(p, headCands), FragsOf(p, tailCands), rest);
    var tail := Substitute(ns[1..], c, m, later);
    if Picks(m, l) {
      var r := Replacement(p, ns[0].value);
      assert FragsOf(p, headCands) == [r];
      ConsAppend([r], later);
      assert Substitute(ns, c, m, frags) == (r + tail.0, tail.1);
      assert ScanNodes(ns, c, p) == r + ScanNodes(ns[1..], c, p);
    } else {
      assert FragsOf(p, headCands) == [];
      assert frags == later;
      assert Substitute(ns, c, m, frags) == ([ns[0]] + tail.0, tail.1);
      assert ScanNodes(ns, c, p) == [ns[0]] + ScanNodes(ns[1..], c, p);
    }
  }

  /** The step of `SubstituteScan` at an element or a span: its children first, then its siblings. */
  lemma SubstituteInner(ns: seq<Node>, c: Ctx, p: Painter, rest: seq<seq<Node>>)
    requires |p.m.term| > 0 && ns != [] && !ns[0].Text?
    requires var tailFrags := FragsOf(p, Candidates(p.m, Leaves(ns[1..], c)));
             var cc := ChildCtx(c, ns[0]);
             Substitute(ns[0].children, cc, p.m, FragsOf(p, Candidates(p.m, Leaves(ns[0].children, cc))) + (tailFrags + rest))
             == (ScanNodes(ns[0].children, cc, p), tailFrags + rest)
    requires Substitute(ns[1..], c, p.m, FragsOf(p, Candidates(p.m, Leaves(ns[1..], c))) + rest)
             == (ScanNodes(ns[1..], c, p), rest)
    ensures Substitute(ns, c, p.m, FragsOf(p, Candidates(p.m, Leaves(ns, c))) + rest) == (ScanNodes(ns, c, p), rest)
  {
    var m := p.m;
    var tailCands := Candidates(m, Leaves(ns[1..], c));
    var frags := FragsOf(p, Candidates(m, Leaves(ns, c))) + rest;
    var cc := ChildCtx(c, ns[0]);
    var ch := ns[0].children;
    LeavesAppend([ns[0]], ns[1..], c);
    assert Leaves(ns, c) == Leaves(ch, cc) + Leaves(ns[1..], c);
    CandidatesAppend(m, Leaves(ch, cc), Leaves(ns[1..], c));
    var headCands := Candidates(m, Leaves(ch, cc));
    FragsOfAppend(p, headCands, tailCands);
    AppendAssoc(FragsOf(p, headCands), FragsOf(p, tailCands), rest);
    var inner := Substitute(ch, cc, m, frags);
    var tail := Substitute(ns[1..], c, m, inner.1);
    var node := if ns[0].Highlight? then Highlight(ns[0].owner, ns[0].active, ns[0].style, inner.0)
                else Element(ns[0].tag, ns[0].panel, inner.0);
    assert Substitute(ns, c, m, frags) == ([node] + tail.0, tail.1);
    assert ScanNodes(ns, c, p) == [node] + ScanNodes(ns[1..], c, p);
  }

  /** The scan keeps the page's text: a replacement reads back as the leaf it replaces. */
  lemma {:induction false} ScanText(ns: seq<Node>, c: Ctx, p: Painter)
    requires |p.m.term| > 0
    ensures TextContent(ScanNodes(ns, c, p)) == TextContent(ns)
    decreases ns
  {
    if ns != [] {
      ScanText(ns[1..], c, p);
      if ns[0].Text? {
        var head := if Eligible(c) && HasMatch(p.m, ns[0].value) then Replacement(p, ns[0].value) else [ns[0]];
        TextContentAppend(head, ScanNodes(ns[1..], c, p));
        ReplacementText(p, ns[0].value);
        assert TextContent([ns[0]]) == ns[0].value + TextContent([]);
      } else {
        ScanText(ns[0].children, ChildCtx(c, ns[0]), p);
      }
    }
  }

  /** The scan adds spans of its own term only: every other term keeps its spans and markers. */
  lemma {:induction false} ScanOwnedOthers(ns: seq<Node>, c: Ctx, p: Painter, q: int)
    requires |p.m.term| > 0 && q != p.owner
    ensures Owned(ScanNodes(ns, c, p), q) == Owned(ns, q)
    decreases ns
  {
    if ns != [] {
      ScanOwnedOthers(ns[1..], c, p, q);
      if ns[0].Text? {
        var head := if Eligible(c) && HasMatch(p.m, ns[0].value) then Replacement(p, ns[0].value) else [ns[0]];
        OwnedAppend(head, ScanNodes(ns[1..], c, p), q);
        ReplacementOwned(p, ns[0].value, q);
        assert Owned([ns[0]], q) == [];
      } else {
        ScanOwnedOthers(ns[0].children, ChildCtx(c, ns[0]), p, q);
      }
    }
  }

  /** The number of match parts in the texts the walker collects from `ns`. */
  function HitsIn(ns: seq<Node>, c: Ctx, m: Matcher): nat
    requires |m.term| > 0
  {
    Hits(m, Candidates(m, Leaves(ns, c)))
  }

  lemma HitsInAppend(a: seq<Node>, b: seq<Node>, c: Ctx, m: Matcher)
    requires |m.term| > 0
    ensures HitsIn(a + b, c, m) == HitsIn(a, c, m) + HitsIn(b, c, m)
  {
    LeavesAppend(a, b, c);
    CandidatesAppend(m, Leaves(a, c), Leaves(b, c));
    HitsAppend(m, Candidates(m, Leaves(a, c)), Candidates(m, Leaves(b, c)));
  }

  /**
   * On a forest without spans of its term, the scan creates one inactive span per match part of
   * every collected candidate, and no other span of the term: `matchCount` counts the spans.
   */
  lemma {:induction false} ScanOwnedSelf(ns: seq<Node>, c: Ctx, p: Painter)
    requires |p.m.term| > 0 && Owned(ns, p.owner) == []
    ensures Owned(ScanNodes(ns, c, p), p.owner) == Falses(HitsIn(ns, c, p.m))
    decreases ns
  {
    if ns != [] {
      var id := p.owner;
      assert ns == [ns[0]] + ns[1..];
      OwnedAppend([ns[0]], ns[1..], id);
      ScanAppend([ns[0]], ns[1..], c, p);
      OwnedAppend(ScanNodes([ns[0]], c, p), ScanNodes(ns[1..], c, p), id);
      HitsInAppend([ns[0]], ns[1..], c, p.m);
      ScanOwnedSelfOne(ns[0], c, p);
      ScanOwnedSelf(ns[1..], c, p);
      FalsesAppend(HitsIn([ns[0]], c, p.m), HitsIn(ns[1..], c, p.m));
    } else {
      assert Leaves(ns, c) == [];
    }
  }

  lemma {:induction false} ScanOwnedSelfOne(n: Node, c: Ctx, p: Painter)
    requires |p.m.term| > 0 && Owned([n], p.owner) == []
    ensures Owned(ScanNodes([n], c, p), p.owner) == Falses(HitsIn([n], c, p.m))
    decreases n
  {
    if n.Text? {
      ScanOwnedSelfLeaf(n.value, c, p);
    } else {
      var cc := ChildCtx(c, n);
      OwnedSingle(n, p.owner);
      assert [n][1..] == [];
      assert Leaves([n], c) == Leaves(n.children, cc) + [];
      assert Leaves([n], c) == Leaves(n.children, cc);
      ScanOwnedSelf(n.children, cc, p);
      var node := ScanNodes([n], c, p)[0];
      assert ScanNodes([n], c, p) == [node] + [];
      assert ScanNodes([n], c, p) == [node];
      assert node.children == ScanNodes(n.children, cc, p);
      OwnedSingle(node, p.owner);
      assert Owned([node], p.owner) == Owned(node.children, p.owner);
      assert HitsIn([n], c, p.m) == HitsIn(n.children, cc, p.m);
    }
  }

  lemma ScanOwnedSelfLeaf(v: string, c: Ctx, p: Painter)
    requires |p.m.term| > 0
    ensures Owned(ScanNodes([Text(v)], c, p), p.owner) == Falses(HitsIn([Text(v)], c, p.m))
  {
    var m := p.m;
    var l := Leaf(v, c);
    assert [Text(v)][1..] == [];
    assert Leaves([Text(v)], c) == [l] + [];
    assert Candidates(m, [l]) == (if Picks(m, l) then [v] else []) + Candidates(m, []);
    ReplacementOwned(p, v, p.owner);
    if Picks(m, l) {
      assert Hits(m, [v]) == MatchCount(m, Split(m, v)) + Hits(m, []);
      assert HitsIn([Text(v)], c, m) == MatchCount(m, Split(m, v));
      assert ScanNodes([Text(v)], c, p) == Replacement(p, v) + [];
      assert ScanNodes([Text(v)], c, p) == Replacement(p, v);
      assert Owned(Replacement(p, v), p.owner) == Falses(MatchCount(m, Split(m, v)));
    } else {
      assert ScanNodes([Text(v)], c, p) == [Text(v)] + [];
      assert Owned([Text(v)], p.owner) == [];
    }
  }

  /** Markers play no part in the scan. */
  lemma {:induction false} ScanStrip(ns: seq<Node>, c: Ctx, p: Painter)
    requires |p.m.term| > 0
    ensures Strip(ScanNodes(ns, c, p)) == ScanNodes(Strip(ns), c, p)
    decreases ns
  {
    if ns != [] {
      ScanStrip(ns[1..], c, p);
      if ns[0].Text? {
        var head := if Eligible(c) && HasMatch(p.m, ns[0].value) then Replacement(p, ns[0].value) else [ns[0]];
        StripAppend(head, ScanNodes(ns[1..], c, p));
        ReplacementStripped(p, ns[0].value);
        assert Strip([ns[0]]) == [ns[0]];
      } else {
        ScanStrip(ns[0].children, ChildCtx(c, ns[0]), p);
      }
    }
  }

  /** A forest in which the walker collects nothing is left exactly as it was. */
  lemma {:induction false} NothingPickedUnchanged(ns: seq<Node>, c: Ctx, p: Painter)
    requires |p.m.term| > 0 && Candidates(p.m, Leaves(ns, c)) == []
    ensures ScanNodes(ns, c, p) == ns
    decreases ns
  {
    if ns != [] {
      var m := p.m;
      if ns[0].Text? {
        var l := Leaf(ns[0].value, c);
        assert Leaves(ns, c) == [l] + Leaves(ns[1..], c);
        CandidatesAppend(m, [l], Leaves(ns[1..], c));
        assert Candidates(m, [l]) == (if Picks(m, l) then [l.text] else []) + Candidates(m, []);
        NothingPickedUnchanged(ns[1..], c, p);
      } else {
        var cc := ChildCtx(c, ns[0]);
        CandidatesAppend(m, Leaves(ns[0].children, cc), Leaves(ns[1..], c));
        NothingPickedUnchanged(ns[0].children, cc, p);
        NothingPickedUnchanged(ns[1..], c, p);
        assert ns == [ns[0]] + ns[1..];
      }
    }
  }

  /** Inside the panel the walker collects nothing. */
  lemma {:induction false} PanelPicksNothing(ns: seq<Node>, c: Ctx, m: Matcher)
    requires c.inPanel
    ensures Candidates(m, Leaves(ns, c)) == []
    decreases ns
  {
    if ns != [] {
      if ns[0].Text? {
        var l := Leaf(ns[0].value, c);
        CandidatesAppend(m, [l], Leaves(ns[1..], c));
        assert Candidates(m, [l]) == [] + Candidates(m, []);
      } else {
        CandidatesAppend(m, Leaves(ns[0].children, ChildCtx(c, ns[0])), Leaves(ns[1..], c));
        PanelPicksNothing(ns[0].children, ChildCtx(c, ns[0]), m);
      }
      PanelPicksNothing(ns[1..], c, m);
    }
  }

  /** The tool's own panel comes out of a scan unchanged. */
  lemma PanelUntouched(t: string, ch: seq<Node>, c: Ctx, p: Painter)
    requires |p.m.term| > 0
    ensures ScanNodes([Element(t, true, ch)], c, p) == [Element(t, true, ch)]
  {
    var cc := ChildCtx(c, Element(t, true, ch));
    PanelPicksNothing(ch, cc, p.m);
    NothingPickedUnchanged(ch, cc, p);
  }

  /**
   * A leaf stays as it is when its parent is SCRIPT or STYLE, when it is in the panel, or when
   * the term does not occur in it.
   */
  lemma LeafUntouched(v: string, c: Ctx, p: Painter)
    requires |p.m.term| > 0
    requires c.parentTag == "SCRIPT" || c.parentTag == "STYLE" || c.inPanel || !HasMatch(p.m, v)
    ensures ScanNodes([Text(v)], c, p) == [Text(v)]
  {
    assert [Text(v)][1..] == [];
  }

  /** An eligible leaf holding the term is replaced by the painted split of its text. */
  lemma LeafReplaced(v: string, c: Ctx, p: Painter)
    requires |p.m.term| > 0 && Eligible(c) && HasMatch(p.m, v)
    ensures ScanNodes([Text(v)], c, p) == Paint(p, Split(p.m, v))
  {
    assert [Text(v)][1..] == [];
    ReplacementPaints(p, v);
  }
}
