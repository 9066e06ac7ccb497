/**
 * `clearHighlights` (content.js:393-406). The loop visits every span in document order,
 * replaces it in its parent by a text node holding its `textContent` and normalizes the parent.
 * A span nested in another span is visited after its outer span has already been taken out of
 * the page, so only the outermost spans change the page; and every node that was the parent of
 * such a span ends with its whole subtree normalized (later replacements inside it are followed
 * by a normalize of their own parent). `ClearNodes` is that combined effect: `z` says that an
 * ancestor of the list was normalized.
 */
module Clear {
  import opened Matching
  import opened Dom
  import opened Scan

  /** `normalize()` on one child list: empty text nodes go, adjacent text nodes merge. */
  function Merge(ns: seq<Node>): seq<Node> {
    if ns == [] then [] else MergeStep(ns[0], Merge(ns[1..]))
  }

  /** Putting `n` in front of an already normalized list. */
  function MergeStep(n: Node, rest: seq<Node>): seq<Node> {
    if !n.Text? then [n] + rest
    else if n.value == [] then rest
    else if rest != [] && rest[0].Text? then [Text(n.value + rest[0].value)] + rest[1..]
    else [n] + rest
  }

  /** A normalized child list: no empty text node and no two text nodes side by side. */
  predicate Clean(ns: seq<Node>) {
    && (forall i :: 0 <= i < |ns| && ns[i].Text? ==> ns[i].value != [])
    && (forall i :: 0 <= i < |ns| - 1 ==> !(ns[i].Text? && ns[i + 1].Text?))
  }

  /** The page after the clear loop; `z` says an ancestor of the list has been normalized. */
  function ClearNodes(ns: seq<Node>, z: bool): seq<Node>
    decreases ns, 1
  {
    var zz := z || HasHighlightChild(ns);
    var flat := ClearEach(ns, zz);
    if zz then Merge(flat) else flat
  }

  function ClearEach(ns: seq<Node>, zz: bool): (r: seq<Node>)
    decreases ns, 0
    ensures |r| == |ns|
  {
    seq(|ns|, i requires 0 <= i < |ns| => ClearOne(ns[i], zz))
  }

  /** A span becomes the text node of its content; an element has its children cleared. */
  function ClearOne(n: Node, zz: bool): Node
    decreases n
  {
    if n.Text? then n
    else if n.Highlight? then Text(TextContent(n.children))
    else Element(n.tag, n.panel, ClearNodes(n.children, zz))
  }

  // ----- normalize -----

  lemma {:induction false} MergeClean(ns: seq<Node>)
    ensures Clean(Merge(ns))
  {
    if ns != [] {
      MergeClean(ns[1..]);
    }
  }

  lemma {:induction false} MergeKeepsClean(ns: seq<Node>)
    requires Clean(ns)
    ensures Merge(ns) == ns
  {
    if ns != [] {
      MergeKeepsClean(ns[1..]);
      assert ns == [ns[0]] + ns[1..];
    }
  }

  lemma {:induction false} MergeText(ns: seq<Node>)
    ensures TextContent(Merge(ns)) == TextContent(ns)
  {
    if ns != [] {
      MergeText(ns[1..]);
      var rest := Merge(ns[1..]);
      var n := ns[0];
      TextContentAppend([n], ns[1..]);
      assert ns == [n] + ns[1..];
      TextContentAppend([n], rest);
      if n.Text? && n.value != [] && rest != [] && rest[0].Text? {
        TextContentAppend([rest[0]], rest[1..]);
        assert rest == [rest[0]] + rest[1..];
        TextContentAppend([Text(n.value + rest[0].value)], rest[1..]);
        assert TextContent([Text(n.value + rest[0].value)]) == n.value + rest[0].value + TextContent([]);
        assert TextContent([rest[0]]) == rest[0].value + TextContent([]);
      }
      assert n.Text? ==> TextContent([n]) == n.value + TextContent([]);
    }
  }

  /** Normalizing the tail first changes nothing: `Merge(a + b) == Merge(a + Merge(b))`. */
  lemma {:induction false} MergeAppend(a: seq<Node>, b: seq<Node>)
    ensures Merge(a + b) == Merge(a + Merge(b))
  {
    if a == [] {
      assert a + b == b && a + Merge(b) == Merge(b);
      MergeClean(b);
      MergeKeepsClean(Merge(b));
    } else {
      assert (a + b)[0] == a[0] && (a + b)[1..] == a[1..] + b;
      assert (a + Merge(b))[0] == a[0] && (a + Merge(b))[1..] == a[1..] + Merge(b);
      MergeAppend(a[1..], b);
    }
  }

  /** Two adjacent text nodes normalize like one node holding both texts. */
  lemma MergeTwoTexts(s1: string, s2: string, r: seq<Node>)
    ensures Merge([Text(s1), Text(s2)] + r) == Merge([Text(s1 + s2)] + r)
  {
    var lhs := [Text(s1), Text(s2)] + r;
    assert lhs[0] == Text(s1) && lhs[1..] == [Text(s2)] + r;
    var rhs := [Text(s1 + s2)] + r;
    assert rhs[0] == Text(s1 + s2) && rhs[1..] == r;
    assert ([Text(s2)] + r)[0] == Text(s2) && ([Text(s2)] + r)[1..] == r;
    var rr := Merge(r);
    if s2 != [] && rr != [] && rr[0].Text? {
      assert s1 + s2 + rr[0].value == s1 + (s2 + rr[0].value);
    }
    if s1 == [] {
      assert s1 + s2 == s2;
    }
    if s2 == [] {
      assert s1 + s2 == s1;
    }
  }

  /** The text nodes of the parts, in order. */
  function TextsOf(parts: seq<string>): (r: seq<Node>)
    ensures |r| == |parts|
  {
    seq(|parts|, i requires 0 <= i < |parts| => Text(parts[i]))
  }

  /** A run of text nodes normalizes like the one text node of their concatenation. */
  lemma {:induction false} MergeTexts(parts: seq<string>, r: seq<Node>)
    ensures Merge(TextsOf(parts) + r) == Merge([Text(Concat(parts))] + r)
  {
    if parts == [] {
      assert TextsOf(parts) + r == r;
      assert ([Text([])] + r)[1..] == r;
    } else {
      var a := parts[0];
      var ps := parts[1..];
      MergeTexts(ps, r);
      assert TextsOf(parts) + r == [Text(a)] + (TextsOf(ps) + r);
      assert ([Text(a)] + (TextsOf(ps) + r))[1..] == TextsOf(ps) + r;
      assert ([Text(a), Text(Concat(ps))] + r)[1..] == [Text(Concat(ps))] + r;
      MergeTwoTexts(a, Concat(ps), r);
    }
  }

  // ----- the clear -----

  lemma ClearEachAppend(a: seq<Node>, b: seq<Node>, zz: bool)
    ensures ClearEach(a + b, zz) == ClearEach(a, zz) + ClearEach(b, zz)
  {
  }

  /** What a cleared span or text reads as. */
  lemma ClearOneText(n: Node, zz: bool)
    requires !n.Element?
    ensures ClearOne(n, zz) == Text(TextContent([n]))
  {
    assert [n][1..] == [];
  }

  /** A painted split clears to the text nodes of its parts. */
  lemma ClearPaint(p: Painter, parts: seq<string>, zz: bool)
    ensures ClearEach(Paint(p, parts), zz) == TextsOf(parts)
  {
    forall i | 0 <= i < |parts| ensures ClearEach(Paint(p, parts), zz)[i] == Text(parts[i]) {
      ClearOneText(PartNode(p, parts[i]), zz);
      assert TextContent([Text(parts[i])]) == parts[i] + TextContent([]);
    }
  }

  /**
   * Under a normalized ancestor a scan is undone by the clear: spans read back as their text, a
   * replaced leaf comes back as text nodes that merge into the leaf. Stated with a suffix `r`
   * that the last merge may join.
   */
  lemma {:induction false} ScanThenClearMerged(ns: seq<Node>, c: Ctx, p: Painter, r: seq<Node>)
    requires |p.m.term| > 0
    ensures Merge(ClearEach(ScanNodes(ns, c, p), true) + r) == Merge(ClearEach(ns, true) + r)
    decreases ns
  {
    if ns != [] {
      var x := ns[0];
      var head := ClearEach(ScanNodes([x], c, p), true);
      var t1 := ClearEach(ScanNodes(ns[1..], c, p), true) + r;
      var t2 := ClearEach(ns[1..], true) + r;
      calc {
        Merge(ClearEach(ScanNodes(ns, c, p), true) + r);
        { SplitScanClear(ns, c, p, r); }
        Merge(head + t1);
        { MergeAppend(head, t1); }
        Merge(head + Merge(t1));
        { ScanThenClearMerged(ns[1..], c, p, r); }
        Merge(head + Merge(t2));
        { MergeAppend(head, t2); }
        Merge(head + t2);
        { ScanThenClearOne(x, c, p, t2); }
        Merge(ClearEach([x], true) + t2);
        { SplitClear(ns, r); }
        Merge(ClearEach(ns, true) + r);
      }
    }
  }

  lemma SplitScanClear(ns: seq<Node>, c: Ctx, p: Painter, r: seq<Node>)
    requires |p.m.term| > 0 && ns != []
    ensures ClearEach(ScanNodes(ns, c, p), true) + r
         == ClearEach(ScanNodes([ns[0]], c, p), true) + (ClearEach(ScanNodes(ns[1..], c, p), true) + r)
  {
    assert ns == [ns[0]] + ns[1..];
    ScanAppend([ns[0]], ns[1..], c, p);
    ClearEachAppend(ScanNodes([ns[0]], c, p), ScanNodes(ns[1..], c, p), true);
  }

  lemma SplitClear(ns: seq<Node>, r: seq<Node>)
    requires ns != []
    ensures ClearEach(ns, true) + r == ClearEach([ns[0]], true) + (ClearEach(ns[1..], true) + r)
  {
    assert ns == [ns[0]] + ns[1..];
    ClearEachAppend([ns[0]], ns[1..], true);
  }

  lemma {:induction false} ScanThenClearOne(x: Node, c: Ctx, p: Painter, t: seq<Node>)
    requires |p.m.term| > 0
    ensures Merge(ClearEach(ScanNodes([x], c, p), true) + t) == Merge(ClearEach([x], true) + t)
    decreases x
  {
    assert [x][1..] == [];
    if x.Text? {
      if Eligible(c) && HasMatch(p.m, x.value) {
        assert ScanNodes([x], c, p) == Replacement(p, x.value) + [];
        var parts := Split(p.m, x.value);
        SplitParts(p.m, x.value);
        if MatchCount(p.m, parts) > 0 {
          assert ScanNodes([x], c, p) == Paint(p, parts);
          ClearPaint(p, parts, true);
          MergeTexts(parts, t);
          assert Concat(parts) == x.value;
          assert ClearEach([x], true) == [Text(Concat(parts))];
        } else {
          assert ScanNodes([x], c, p) == [x];
        }
      } else {
        assert ScanNodes([x], c, p) == [x] + [];
      }
    } else if x.Highlight? {
      var y := ScanNodes([x], c, p)[0];
      assert ScanNodes([x], c, p) == [y] + [];
      ScanText(x.children, ChildCtx(c, x), p);
      ClearOneText(x, true);
      ClearOneText(y, true);
      OneText(x);
      OneText(y);
    } else {
      var cc := ChildCtx(c, x);
      var y := ScanNodes([x], c, p)[0];
      assert ScanNodes([x], c, p) == [y] + [];
      ScanThenClearMerged(x.children, cc, p, []);
      assert ClearEach(ScanNodes(x.children, cc, p), true) + [] == ClearEach(ScanNodes(x.children, cc, p), true);
      assert ClearEach(x.children, true) + [] == ClearEach(x.children, true);
      HighlightClearsTrue(ScanNodes(x.children, cc, p));
      HighlightClearsTrue(x.children);
    }
  }

  lemma OneText(n: Node)
    requires !n.Text?
    ensures TextContent([n]) == TextContent(n.children)
  {
    assert [n][1..] == [];
  }

  /** Under a normalized ancestor the clear is the normalized flat list. */
  lemma HighlightClearsTrue(ns: seq<Node>)
    ensures ClearNodes(ns, true) == Merge(ClearEach(ns, true))
  {
  }

  /** Clearing under a normalized ancestor undoes a scan. */
  lemma ScanClearTrue(ns: seq<Node>, c: Ctx, p: Painter)
    requires |p.m.term| > 0
    ensures ClearNodes(ScanNodes(ns, c, p), true) == ClearNodes(ns, true)
  {
    ScanThenClearMerged(ns, c, p, []);
    assert ClearEach(ScanNodes(ns, c, p), true) + [] == ClearEach(ScanNodes(ns, c, p), true);
    assert ClearEach(ns, true) + [] == ClearEach(ns, true);
  }

  // ----- which pages the clear restores -----

  /**
   * The lists whose clear is the same whether or not an ancestor is normalized: a list that is
   * normalized anyway (`z`, or a span among its children), or a normalized list whose element
   * children are such lists again. A page the HTML parser builds has no empty and no adjacent
   * text nodes, so it satisfies this with `z` false.
   */
  ghost predicate Inv(ns: seq<Node>, z: bool)
    decreases ns
  {
    z || HasHighlightChild(ns) ||
    (Clean(ns) && forall i :: 0 <= i < |ns| && ns[i].Element? ==> Inv(ns[i].children, false))
  }

  /** On such lists the clear does not depend on whether an ancestor is normalized. */
  lemma {:induction false} ClearRegion(ns: seq<Node>, z: bool)
    requires Inv(ns, z)
    ensures ClearNodes(ns, z) == ClearNodes(ns, true)
    decreases ns
  {
    if !(z || HasHighlightChild(ns)) {
      forall i | 0 <= i < |ns| ensures ClearOne(ns[i], true) == ClearOne(ns[i], false) {
        if ns[i].Element? {
          ClearRegion(ns[i].children, false);
        }
      }
      var flat := ClearEach(ns, false);
      assert ClearEach(ns, true) == flat;
      assert Clean(flat) by {
        forall i | 0 <= i < |ns| ensures flat[i].Text? <==> ns[i].Text? {
        }
        forall i | 0 <= i < |ns| && ns[i].Text? ensures flat[i] == ns[i] {
        }
      }
      MergeKeepsClean(flat);
    }
  }

  /** The spans among the children survive a scan. */
  lemma ScanKeepsHighlightChild(ns: seq<Node>, c: Ctx, p: Painter)
    requires |p.m.term| > 0 && HasHighlightChild(ns)
    ensures HasHighlightChild(ScanNodes(ns, c, p))
  {
    var i :| 0 <= i < |ns| && ns[i].Highlight?;
    assert ns == ns[..i] + ([ns[i]] + ns[i + 1..]);
    ScanAppend(ns[..i], [ns[i]] + ns[i + 1..], c, p);
    ScanAppend([ns[i]], ns[i + 1..], c, p);
    assert [ns[i]][1..] == [];
    var h := ScanNodes([ns[i]], c, p);
    assert h == [h[0]] + [] && h[0].Highlight?;
    HasHighlightChildAppend(h, ScanNodes(ns[i + 1..], c, p));
    HasHighlightChildAppend(ScanNodes(ns[..i], c, p), h + ScanNodes(ns[i + 1..], c, p));
  }

  /** The shallow effect of a scan on one node that gains no span beside it. */
  function Shallow(n: Node, c: Ctx, p: Painter): Node
    requires |p.m.term| > 0
  {
    if n.Text? then n
    else if n.Highlight? then Highlight(n.owner, n.active, n.style, ScanNodes(n.children, ChildCtx(c, n), p))
    else Element(n.tag, n.panel, ScanNodes(n.children, ChildCtx(c, n), p))
  }

  /** A node is either replaced by a fragment holding a span, or keeps its place. */
  lemma NoNewSpanOne(x: Node, c: Ctx, p: Painter)
    requires |p.m.term| > 0
    ensures HasHighlightChild(ScanNodes([x], c, p)) || ScanNodes([x], c, p) == [Shallow(x, c, p)]
  {
    assert [x][1..] == [];
    var head := ScanNodes([x], c, p);
    if x.Text? && Eligible(c) && HasMatch(p.m, x.value) {
      ReplacementPaints(p, x.value);
      assert head == Replacement(p, x.value) + [];
      assert head == Replacement(p, x.value);
    }
  }

  /** A scan that puts no span among the children of a list changes only the nodes' children. */
  lemma {:induction false} NoNewSpan(ns: seq<Node>, c: Ctx, p: Painter)
    requires |p.m.term| > 0 && !HasHighlightChild(ScanNodes(ns, c, p))
    ensures |ScanNodes(ns, c, p)| == |ns|
    ensures forall i :: 0 <= i < |ns| ==> ScanNodes(ns, c, p)[i] == Shallow(ns[i], c, p)
    decreases ns
  {
    if ns != [] {
      ScanCons(ns, c, p);
      HasHighlightChildAppend(ScanNodes([ns[0]], c, p), ScanNodes(ns[1..], c, p));
      NoNewSpan(ns[1..], c, p);
      NoNewSpanStep(ns, c, p);
    }
  }

  lemma NoNewSpanStep(ns: seq<Node>, c: Ctx, p: Painter)
    requires |p.m.term| > 0 && ns != [] && !HasHighlightChild(ScanNodes([ns[0]], c, p))
    requires ScanNodes(ns, c, p) == ScanNodes([ns[0]], c, p) + ScanNodes(ns[1..], c, p)
    requires |ScanNodes(ns[1..], c, p)| == |ns[1..]|
    requires forall i :: 0 <= i < |ns[1..]| ==> ScanNodes(ns[1..], c, p)[i] == Shallow(ns[1..][i], c, p)
    ensures |ScanNodes(ns, c, p)| == |ns|
    ensures forall i :: 0 <= i < |ns| ==> ScanNodes(ns, c, p)[i] == Shallow(ns[i], c, p)
  {
    var tail := ScanNodes(ns[1..], c, p);
    NoNewSpanOne(ns[0], c, p);
    var r := [Shallow(ns[0], c, p)] + tail;
    assert ScanNodes(ns, c, p) == r;
    forall i | 0 <= i < |ns| ensures r[i] == Shallow(ns[i], c, p) {
      if i > 0 {
        assert r[i] == tail[i - 1] && ns[1..][i - 1] == ns[i];
      }
    }
  }

  /** A scan keeps a page on which the clear restores it. */
  lemma {:induction false} ScanKeepsInv(ns: seq<Node>, c: Ctx, p: Painter, z: bool)
    requires |p.m.term| > 0 && Inv(ns, z)
    ensures Inv(ScanNodes(ns, c, p), z)
    decreases ns
  {
    var sn := ScanNodes(ns, c, p);
    if z {
    } else if HasHighlightChild(ns) {
      ScanKeepsHighlightChild(ns, c, p);
    } else if !HasHighlightChild(sn) {
      NoNewSpan(ns, c, p);
      forall i | 0 <= i < |sn| && sn[i].Element? ensures Inv(sn[i].children, false) {
        ScanKeepsInv(ns[i].children, ChildCtx(c, ns[i]), p, false);
      }
      assert Clean(sn) by {
        forall i | 0 <= i < |ns| ensures sn[i].Text? <==> ns[i].Text? {
        }
      }
    }
  }

  /** On such a page the clear undoes a scan. */
  lemma ScanKeepsClear(ns: seq<Node>, c: Ctx, p: Painter, z: bool)
    requires |p.m.term| > 0 && Inv(ns, z)
    ensures ClearNodes(ScanNodes(ns, c, p), z) == ClearNodes(ns, z)
  {
    ScanKeepsInv(ns, c, p, z);
    ClearRegion(ScanNodes(ns, c, p), z);
    ScanClearTrue(ns, c, p);
    ClearRegion(ns, z);
  }

  // ----- what the clear leaves -----

  lemma {:induction false} ClearEachText(ns: seq<Node>, zz: bool)
    ensures TextContent(ClearEach(ns, zz)) == TextContent(ns)
    decreases ns, 0
  {
    if ns != [] {
      var x := ns[0];
      assert ns == [x] + ns[1..];
      ClearEachAppend([x], ns[1..], zz);
      TextContentAppend([x], ns[1..]);
      TextContentAppend([ClearOne(x, zz)], ClearEach(ns[1..], zz));
      ClearEachText(ns[1..], zz);
      assert [x][1..] == [] && [ClearOne(x, zz)][1..] == [];
      if x.Element? {
        ClearText(x.children, zz);
      }
    }
  }

  /** The clear keeps the page's text (content.js:397: a span becomes its own `textContent`). */
  lemma {:induction false} ClearText(ns: seq<Node>, z: bool)
    ensures TextContent(ClearNodes(ns, z)) == TextContent(ns)
    decreases ns, 1
  {
    var zz := z || HasHighlightChild(ns);
    ClearEachText(ns, zz);
    if zz {
      MergeText(ClearEach(ns, zz));
    }
  }

  lemma {:induction false} MergeKeepsFree(ns: seq<Node>)
    requires HighlightFree(ns)
    ensures HighlightFree(Merge(ns))
  {
    if ns != [] {
      MergeKeepsFree(ns[1..]);
    }
  }

  lemma {:induction false} ClearEachFree(ns: seq<Node>, zz: bool)
    ensures HighlightFree(ClearEach(ns, zz))
    decreases ns, 0
  {
    var flat := ClearEach(ns, zz);
    forall i | 0 <= i < |ns| ensures !flat[i].Highlight? && (flat[i].Element? ==> HighlightFree(flat[i].children)) {
      if ns[i].Element? {
        ClearRemovesAll(ns[i].children, zz);
      }
    }
    HighlightFreeAt(flat);
  }

  /** After the clear no span is left anywhere. */
  lemma {:induction false} ClearRemovesAll(ns: seq<Node>, z: bool)
    ensures HighlightFree(ClearNodes(ns, z))
    decreases ns, 1
  {
    var zz := z || HasHighlightChild(ns);
    ClearEachFree(ns, zz);
    if zz {
      MergeKeepsFree(ClearEach(ns, zz));
    }
  }

  /** A page without spans is left exactly as it is. */
  lemma {:induction false} ClearFree(ns: seq<Node>)
    requires HighlightFree(ns)
    ensures ClearNodes(ns, false) == ns
    decreases ns
  {
    HighlightFreeAt(ns);
    forall i | 0 <= i < |ns| ensures ClearOne(ns[i], false) == ns[i] {
      if ns[i].Element? {
        ClearFree(ns[i].children);
      }
    }
  }

  /** A second clear changes nothing. */
  lemma ClearIdempotent(ns: seq<Node>, z: bool)
    ensures ClearNodes(ClearNodes(ns, z), false) == ClearNodes(ns, z)
  {
    ClearRemovesAll(ns, z);
    ClearFree(ClearNodes(ns, z));
  }

  /** The child list of a cleared span's parent ends up normalized. */
  lemma ClearNormalizes(ns: seq<Node>, z: bool)
    requires HasHighlightChild(ns) || z
    ensures Clean(ClearNodes(ns, z))
  {
    MergeClean(ClearEach(ns, true));
  }

  /** Markers play no part in the clear. */
  lemma {:induction false} ClearStrip(ns: seq<Node>, z: bool)
    ensures ClearNodes(Strip(ns), z) == ClearNodes(ns, z)
    decreases ns
  {
    var st := Strip(ns);
    StripAt(ns);
    assert HasHighlightChild(st) == HasHighlightChild(ns) by {
      if HasHighlightChild(ns) {
        var i :| 0 <= i < |ns| && ns[i].Highlight?;
        assert st[i].Highlight?;
      }
      if HasHighlightChild(st) {
        var i :| 0 <= i < |st| && st[i].Highlight?;
        assert ns[i].Highlight?;
      }
    }
    var zz := z || HasHighlightChild(ns);
    forall i | 0 <= i < |ns| ensures ClearOne(st[i], zz) == ClearOne(ns[i], zz) {
      if ns[i].Highlight? {
        StripKeepsText(ns[i].children);
      } else if ns[i].Element? {
        ClearStrip(ns[i].children, zz);
      }
    }
    assert ClearEach(st, zz) == ClearEach(ns, zz);
  }

  /** Markers play no part in which pages the clear restores. */
  lemma {:induction false} InvStrip(ns: seq<Node>, z: bool)
    ensures Inv(Strip(ns), z) <==> Inv(ns, z)
    decreases ns
  {
    var st := Strip(ns);
    StripAt(ns);
    assert HasHighlightChild(st) == HasHighlightChild(ns) by {
      if HasHighlightChild(ns) {
        var i :| 0 <= i < |ns| && ns[i].Highlight?;
        assert st[i].Highlight?;
      }
      if HasHighlightChild(st) {
        var i :| 0 <= i < |st| && st[i].Highlight?;
        assert ns[i].Highlight?;
      }
    }
    assert Clean(st) == Clean(ns) by {
      forall i | 0 <= i < |ns| ensures (st[i].Text? <==> ns[i].Text?) && (ns[i].Text? ==> st[i] == ns[i]) {
      }
    }
    forall i | 0 <= i < |ns| && ns[i].Element? ensures Inv(st[i].children, false) <==> Inv(ns[i].children, false) {
      InvStrip(ns[i].children, false);
    }
  }
}
