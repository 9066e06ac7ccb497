/**
 * The search engine of the content script: the registry and the page together, with the
 * operations the panel's controls trigger (content.js:7, 222-258, 297-301, 335-482).
 */
module Engine {
  import opened Wrappers
  import opened Colors
  import opened RegExpEscape
  import opened Matching
  import opened Dom
  import opened Scan
  import opened Clear
  import opened Registry

  /** What `highlightTerm(term, color, id, caseSensitive)` paints with. */
  function PainterOf(term: string, color: string, id: int, caseSensitive: bool, fold: char -> char): Painter {
    Painter(Matcher(term, caseSensitive, fold), id, Style(HexToRgb(color), ContrastColor(color)))
  }

  function PainterFor(t: SearchTerm, fold: char -> char): Painter {
    PainterOf(t.term, t.color, t.id, t.caseSensitive, fold)
  }

  predicate AllActive(ts: seq<SearchTerm>) {
    forall k :: 0 <= k < |ts| ==> |ts[k].term| > 0
  }

  /** The page after highlighting the rows `ts` one after the other, spans left inactive. */
  function ScanAll(ns: seq<Node>, ts: seq<SearchTerm>, fold: char -> char): seq<Node>
    requires AllActive(ts)
    decreases |ts|
  {
    if ts == [] then ns
    else ScanNodes(ScanAll(ns, ts[..|ts| - 1], fold), BodyCtx, PainterFor(ts[|ts| - 1], fold))
  }

  /** `clearHighlights` sets every count to zero. */
  function ZeroCounts(ts: seq<SearchTerm>): (r: seq<SearchTerm>)
    ensures |r| == |ts|
  {
    seq(|ts|, k requires 0 <= k < |ts| => ts[k].(count := 0))
  }

  // ----- lemmas about the specification -----

  lemma ActiveIsActive(ts: seq<SearchTerm>)
    ensures AllActive(Active(ts))
  {
    var r := Active(ts);
    forall k | 0 <= k < |r| ensures |r[k].term| > 0 {
      assert r[k] in r;
    }
  }

  /** Highlighting never changes the text of the page. */
  lemma {:induction false} ScanAllText(ns: seq<Node>, ts: seq<SearchTerm>, fold: char -> char)
    requires AllActive(ts)
    ensures TextContent(ScanAll(ns, ts, fold)) == TextContent(ns)
    decreases |ts|
  {
    if ts != [] {
      ScanAllText(ns, ts[..|ts| - 1], fold);
      ScanText(ScanAll(ns, ts[..|ts| - 1], fold), BodyCtx, PainterFor(ts[|ts| - 1], fold));
    }
  }

  /** On a page whose text nodes are normalized, highlighting keeps what clearing gives back. */
  lemma {:induction false} ScanAllKeepsPage(ns: seq<Node>, ts: seq<SearchTerm>, fold: char -> char)
    requires AllActive(ts) && Inv(ns, false)
    ensures Inv(ScanAll(ns, ts, fold), false)
    ensures ClearNodes(ScanAll(ns, ts, fold), false) == ClearNodes(ns, false)
    decreases |ts|
  {
    if ts != [] {
      var prev := ScanAll(ns, ts[..|ts| - 1], fold);
      ScanAllKeepsPage(ns, ts[..|ts| - 1], fold);
      ScanKeepsInv(prev, BodyCtx, PainterFor(ts[|ts| - 1], fold), false);
      ScanKeepsClear(prev, BodyCtx, PainterFor(ts[|ts| - 1], fold), false);
    }
  }

  /** Highlighting any rows and then clearing gives back a normalized page exactly. */
  lemma SearchThenClear(page: seq<Node>, ts: seq<SearchTerm>, fold: char -> char)
    requires AllActive(ts) && Inv(page, false) && HighlightFree(page)
    ensures ClearNodes(ScanAll(page, ts, fold), false) == page
  {
    ScanAllKeepsPage(page, ts, fold);
    ClearFree(page);
  }

  /** Counts do not take part in the scan. */
  lemma {:induction false} ScanAllZero(ns: seq<Node>, ts: seq<SearchTerm>, fold: char -> char)
    requires AllActive(ts)
    ensures AllActive(ZeroCounts(ts))
    ensures ScanAll(ns, ZeroCounts(ts), fold) == ScanAll(ns, ts, fold)
    decreases |ts|
  {
    var z := ZeroCounts(ts);
    assert forall k :: 0 <= k < |z| ==> z[k].term == ts[k].term;
    if ts != [] {
      var init := ts[..|ts| - 1];
      assert ZeroCounts(init) == z[..|z| - 1];
      ScanAllZero(ns, init, fold);
      assert PainterFor(z[|z| - 1], fold) == PainterFor(ts[|ts| - 1], fold);
    }
  }

  /** Zeroing the counts and then keeping the rows with a term is the other way round too. */
  lemma {:induction false} ActiveZero(ts: seq<SearchTerm>)
    ensures Active(ZeroCounts(ts)) == ZeroCounts(Active(ts))
  {
    if ts != [] {
      var z := ZeroCounts(ts);
      ZeroCountsCons(ts);
      ActiveZero(ts[1..]);
      var head := if |ts[0].term| > 0 then [ts[0]] else [];
      var zhead := if |z[0].term| > 0 then [z[0]] else [];
      assert Active(ts) == head + Active(ts[1..]);
      assert Active(z) == zhead + Active(z[1..]);
      assert zhead == ZeroCounts(head);
      ZeroCountsAppend(head, Active(ts[1..]));
    }
  }

  lemma ZeroCountsCons(ts: seq<SearchTerm>)
    requires ts != []
    ensures ZeroCounts(ts)[0] == ts[0].(count := 0) && ZeroCounts(ts)[1..] == ZeroCounts(ts[1..])
  {
  }

  lemma ZeroCountsAppend(a: seq<SearchTerm>, b: seq<SearchTerm>)
    ensures ZeroCounts(a + b) == ZeroCounts(a) + ZeroCounts(b)
  {
  }

  /** The rows `performSearch` scans have unique ids when the registry has. */
  lemma {:induction false} ActiveKeepsUnique(ts: seq<SearchTerm>)
    requires UniqueIds(ts)
    ensures UniqueIds(Active(ts))
  {
    if ts != [] {
      var rest := Active(ts[1..]);
      ActiveKeepsUnique(ts[1..]);
      if |ts[0].term| > 0 {
        forall u | u in rest ensures u.id != ts[0].id {
          var k :| 0 <= k < |ts[1..]| && ts[1..][k] == u;
          assert ts[k + 1] == u;
        }
        ConsUnique(ts[0], rest);
        assert Active(ts) == [ts[0]] + rest;
      } else {
        assert Active(ts) == rest;
      }
    }
  }

  /** Two pages that differ only in which spans are active clear and read alike. */
  lemma SameUpToMarks(a: seq<Node>, b: seq<Node>)
    requires Strip(a) == Strip(b)
    ensures TextContent(a) == TextContent(b)
    ensures ClearNodes(a, false) == ClearNodes(b, false)
    ensures Inv(a, false) <==> Inv(b, false)
  {
    StripKeepsText(a);
    StripKeepsText(b);
    ClearStrip(a, false);
    ClearStrip(b, false);
    InvStrip(a, false);
    InvStrip(b, false);
  }

  lemma MarksStep(done: seq<bool>, rest: seq<bool>, k: nat, cur: int)
    requires |done| == k && done == Marks(k, cur) && 0 < |rest|
    ensures (done + rest)[k := k == cur] == Marks(k + 1, cur) + rest[1..]
  {
    var l := (done + rest)[k := k == cur];
    var r := Marks(k + 1, cur) + rest[1..];
    assert |l| == |r|;
    forall i | 0 <= i < |l| ensures l[i] == r[i] {
      if i > k {
        assert l[i] == rest[i - k];
      }
    }
  }

  /** The next row to highlight has not been highlighted yet, and it is a row of the registry. */
  lemma NextRow(zeroed: seq<SearchTerm>, a: seq<SearchTerm>, j: nat) returns (i0: nat)
    requires a == Active(zeroed) && UniqueIds(a) && j < |a|
    ensures a[j].id !in Ids(a[..j]) && i0 < |zeroed| && zeroed[i0] == a[j]
  {
    var done := Ids(a[..j]);
    forall d | 0 <= d < j ensures done[d] != a[j].id {
      assert a[d].id != a[j].id;
    }
    assert a[j] in a;
    i0 :| 0 <= i0 < |zeroed| && zeroed[i0] == a[j];
  }

  lemma IdsSnoc(a: seq<SearchTerm>, j: nat)
    requires j < |a|
    ensures Ids(a[..j + 1]) == Ids(a[..j]) + [a[j].id]
  {
  }

  lemma ScanAllSnoc(ns: seq<Node>, a: seq<SearchTerm>, j: nat, fold: char -> char)
    requires AllActive(a) && j < |a|
    ensures AllActive(a[..j]) && AllActive(a[..j + 1])
    ensures ScanAll(ns, a[..j + 1], fold) == ScanNodes(ScanAll(ns, a[..j], fold), BodyCtx, PainterFor(a[j], fold))
  {
    assert a[..j + 1][..j] == a[..j];
  }

  /** With unique ids, a row's id is among the scanned ids exactly when the row has a term. */
  lemma ActiveIds(ts: seq<SearchTerm>, k: nat)
    requires UniqueIds(ts) && k < |ts|
    ensures ts[k].id in Ids(Active(ts)) <==> |ts[k].term| > 0
  {
    var a := Active(ts);
    if |ts[k].term| > 0 {
      assert ts[k] in a;
      var j :| 0 <= j < |a| && a[j] == ts[k];
      assert Ids(a)[j] == ts[k].id;
    }
    if ts[k].id in Ids(a) {
      var j :| 0 <= j < |a| && Ids(a)[j] == ts[k].id;
      assert a[j] in a;
      var k' :| 0 <= k' < |ts| && ts[k'] == a[j];
    }
  }

  /** What one scan does to the page, gathered for the methods that perform it. */
  lemma ScanFacts(ns: seq<Node>, p: Painter)
    requires |p.m.term| > 0
    ensures TextContent(ScanNodes(ns, BodyCtx, p)) == TextContent(ns)
    ensures Strip(ScanNodes(ns, BodyCtx, p)) == ScanNodes(Strip(ns), BodyCtx, p)
    ensures Inv(ns, false) ==>
      Inv(ScanNodes(ns, BodyCtx, p), false) && ClearNodes(ScanNodes(ns, BodyCtx, p), false) == ClearNodes(ns, false)
    ensures forall q :: q != p.owner ==> Owned(ScanNodes(ns, BodyCtx, p), q) == Owned(ns, q)
    ensures Owned(ns, p.owner) == [] ==>
      Owned(ScanNodes(ns, BodyCtx, p), p.owner) == Falses(HitsIn(ns, BodyCtx, p.m))
  {
    ScanText(ns, BodyCtx, p);
    ScanStrip(ns, BodyCtx, p);
    if Inv(ns, false) {
      ScanKeepsInv(ns, BodyCtx, p, false);
      ScanKeepsClear(ns, BodyCtx, p, false);
    }
    forall q | q != p.owner ensures Owned(ScanNodes(ns, BodyCtx, p), q) == Owned(ns, q) {
      ScanOwnedOthers(ns, BodyCtx, p, q);
    }
    if Owned(ns, p.owner) == [] {
      ScanOwnedSelf(ns, BodyCtx, p);
    }
  }

  /**
   * What `highlightTerm` does, from registry `ts0` and page `ns0` to `ts1` and `ns1`: the page is
   * scanned with the painter, only the painter's spans change, and the painter's row (if any)
   * takes the count of matches with its index clamped; when the row had no span before, its
   * spans are the new ones with the one at its index active.
   */
  ghost predicate Highlighted(p: Painter, ts0: seq<SearchTerm>, ns0: seq<Node>, ts1: seq<SearchTerm>, ns1: seq<Node>)
    requires |p.m.term| > 0
  {
    && Strip(ns1) == ScanNodes(Strip(ns0), BodyCtx, p)
    && (forall q :: q != p.owner ==> Owned(ns1, q) == Owned(ns0, q))
    && (Find(ts0, p.owner).None? ==> ts1 == ts0)
    && (Find(ts0, p.owner).Some? ==>
          var i := Find(ts0, p.owner).value;
          var hits := HitsIn(ns0, BodyCtx, p.m);
          && ts1 == ts0[i := Rescanned(ts0[i], hits)]
          && (Owned(ns0, p.owner) == [] ==> Owned(ns1, p.owner) == Marks(hits, ts1[i].currentIndex)))
  }

  /**
   * Where `performSearch` stands once the rows with ids `done` are highlighted: those rows are
   * rescanned and their spans marked, the others are as `clearHighlights` left them with no span.
   */
  ghost predicate SearchedSoFar(zeroed: seq<SearchTerm>, done: seq<int>, ts: seq<SearchTerm>, ns: seq<Node>) {
    && |ts| == |zeroed|
    && (forall k :: 0 <= k < |ts| ==>
          ts[k] == if zeroed[k].id in done then Rescanned(zeroed[k], ts[k].count) else zeroed[k])
    && (forall k :: 0 <= k < |ts| ==> zeroed[k].id in done ==>
          Owned(ns, ts[k].id) == Marks(ts[k].count, ts[k].currentIndex))
    && (forall q :: q !in done ==> Owned(ns, q) == [])
  }

  /** Highlighting one more row advances the search by that row. */
  lemma SearchStep(zeroed: seq<SearchTerm>, done: seq<int>, item: SearchTerm, i0: nat, fold: char -> char,
                   ts0: seq<SearchTerm>, ns0: seq<Node>, ts1: seq<SearchTerm>, ns1: seq<Node>)
    requires UniqueIds(ts0) && |item.term| > 0 && item.id !in done
    requires i0 < |zeroed| && zeroed[i0] == item
    requires SearchedSoFar(zeroed, done, ts0, ns0)
    requires Highlighted(PainterFor(item, fold), ts0, ns0, ts1, ns1)
    ensures SearchedSoFar(zeroed, done + [item.id], ts1, ns1)
  {
    var p := PainterFor(item, fold);
    assert ts0[i0] == item;
    FindUnique(ts0, i0);
    var hits := HitsIn(ns0, BodyCtx, p.m);
    assert ts1 == ts0[i0 := Rescanned(item, hits)];
    assert Owned(ns0, item.id) == [];
    forall k | 0 <= k < |ts1|
      ensures ts1[k] == if zeroed[k].id in done + [item.id] then Rescanned(zeroed[k], ts1[k].count) else zeroed[k]
    {
      if k != i0 {
        assert ts1[k] == ts0[k];
        assert zeroed[k].id != item.id by {
          assert ts0[k].id == zeroed[k].id;
        }
      }
    }
    forall k | 0 <= k < |ts1| && zeroed[k].id in done + [item.id]
      ensures Owned(ns1, ts1[k].id) == Marks(ts1[k].count, ts1[k].currentIndex)
    {
      if k != i0 {
        assert ts1[k] == ts0[k] && ts0[k].id == zeroed[k].id && zeroed[k].id != item.id;
      }
    }
  }

  /** The label of a row whose spans agree with it shows the row's position and its number of spans. */
  lemma RowLabel(t: SearchTerm, spans: seq<bool>)
    requires spans == Marks(t.count, t.currentIndex) && t.currentIndex >= -1
    ensures |spans| > 0 ==> ParseLabel(CountLabel(t.count, t.currentIndex)) == Some((t.currentIndex + 1, |spans|))
    ensures |spans| == 0 ==> CountLabel(t.count, t.currentIndex) == ""
  {
    if t.count > 0 {
      CountLabelRoundTrip(t.count, t.currentIndex);
    }
  }

  /**
   * Each row's spans are as many as its count, the one at its index is the active one, and no
   * span belongs to a row that is gone.
   */
  ghost predicate SpansAgree(ts: seq<SearchTerm>, ns: seq<Node>) {
    && (forall k :: 0 <= k < |ts| ==> Owned(ns, ts[k].id) == Marks(ts[k].count, ts[k].currentIndex))
    && (forall k :: 0 <= k < |ts| ==> ts[k].count > 0 ==> ts[k].currentIndex < ts[k].count)
    && (forall q :: q !in Ids(ts) ==> Owned(ns, q) == [])
  }

  lemma SpansOfRow(ts: seq<SearchTerm>, ns: seq<Node>, i: nat)
    requires SpansAgree(ts, ns) && i < |ts|
    ensures Owned(ns, ts[i].id) == Marks(ts[i].count, ts[i].currentIndex)
    ensures ts[i].count > 0 ==> ts[i].currentIndex < ts[i].count
  {
  }

  /** Moving one row's index and marking its spans anew keeps the rows and the spans in agreement. */
  lemma NavigateAgree(ts: seq<SearchTerm>, ns: seq<Node>, i: nat, next: int, ns1: seq<Node>)
    requires SpansAgree(ts, ns) && UniqueIds(ts) && i < |ts| && 0 <= next < ts[i].count
    requires forall q :: q != ts[i].id ==> Owned(ns1, q) == Owned(ns, q)
    requires Owned(ns1, ts[i].id) == Marks(|Owned(ns, ts[i].id)|, next)
    ensures SpansAgree(ts[i := ts[i].(currentIndex := next)], ns1)
  {
    var ts1 := ts[i := ts[i].(currentIndex := next)];
    SpansOfRow(ts, ns, i);
    forall k | 0 <= k < |ts1|
      ensures Owned(ns1, ts1[k].id) == Marks(ts1[k].count, ts1[k].currentIndex)
      ensures ts1[k].count > 0 ==> ts1[k].currentIndex < ts1[k].count
    {
      if k != i {
        SpansOfRow(ts, ns, k);
        assert ts1[k] == ts[k] && ts[k].id != ts[i].id;
      }
    }
    IdsUpdate(ts, i, ts1[i]);
    forall q | q !in Ids(ts1) ensures Owned(ns1, q) == [] {
      assert q != ts[i].id by {
        assert Ids(ts)[i] == ts[i].id;
      }
    }
  }

  lemma IdsUpdate(ts: seq<SearchTerm>, i: nat, t: SearchTerm)
    requires i < |ts| && t.id == ts[i].id
    ensures Ids(ts[i := t]) == Ids(ts)
  {
    var ts1 := ts[i := t];
    assert forall k :: 0 <= k < |ts| ==> ts1[k].id == ts[k].id;
  }

  /** The label of the row with the id, when there is one. */
  function RowText(ts: seq<SearchTerm>, id: int): (r: Option<string>)
    ensures r.Some? <==> Find(ts, id).Some?
  {
    match Find(ts, id)
    case None => None
    case Some(i) => Some(CountLabel(ts[i].count, ts[i].currentIndex))
  }

  lemma RowTextShowsSpans(ts: seq<SearchTerm>, ns: seq<Node>, id: int)
    requires SpansAgree(ts, ns) && Find(ts, id).Some? && ts[Find(ts, id).value].currentIndex >= -1
    ensures var t := ts[Find(ts, id).value];
      |Owned(ns, id)| > 0 ==> ParseLabel(RowText(ts, id).value) == Some((t.currentIndex + 1, |Owned(ns, id)|))
    ensures |Owned(ns, id)| == 0 ==> RowText(ts, id) == Some("")
  {
    var i := Find(ts, id).value;
    var t := ts[i];
    assert t.id == id && RowText(ts, id) == Some(CountLabel(t.count, t.currentIndex));
    SpansOfRow(ts, ns, i);
    RowLabel(t, Owned(ns, id));
  }

  /** What `performSearch` knows once the page is cleared and the counts zeroed, before it highlights. */
  lemma SearchSetup(ts: seq<SearchTerm>, cleared: seq<Node>, fold: char -> char)
    requires UniqueIds(ZeroCounts(ts)) && HighlightFree(cleared)
    ensures AllActive(Active(ts)) && AllActive(Active(ZeroCounts(ts))) && UniqueIds(Active(ZeroCounts(ts)))
    ensures ScanAll(cleared, Active(ZeroCounts(ts)), fold) == ScanAll(cleared, Active(ts), fold)
    ensures Strip(cleared) == cleared
  {
    ActiveIsActive(ZeroCounts(ts));
    ActiveIsActive(ts);
    ActiveKeepsUnique(ZeroCounts(ts));
    ActiveZero(ts);
    ScanAllZero(cleared, Active(ts), fold);
    StripFree(cleared);
  }

  /** Once every row with a term is highlighted, the rows and their spans agree. */
  lemma SearchComplete(zeroed: seq<SearchTerm>, ts: seq<SearchTerm>, ns: seq<Node>)
    requires UniqueIds(zeroed) && UniqueIds(ts) && SearchedSoFar(zeroed, Ids(Active(zeroed)), ts, ns)
    requires forall k :: 0 <= k < |zeroed| ==> zeroed[k].count == 0 && zeroed[k].currentIndex >= -1
    ensures forall k :: 0 <= k < |ts| ==>
      ts[k] == if |zeroed[k].term| > 0 then Rescanned(zeroed[k], ts[k].count) else zeroed[k]
    ensures forall k :: 0 <= k < |ts| ==> Owned(ns, ts[k].id) == Marks(ts[k].count, ts[k].currentIndex)
    ensures forall k :: 0 <= k < |ts| ==> ts[k].count > 0 ==> ts[k].currentIndex < ts[k].count
    ensures forall q :: q !in Ids(ts) ==> Owned(ns, q) == []
  {
    var done := Ids(Active(zeroed));
    forall k | 0 <= k < |ts| ensures zeroed[k].id in done <==> |zeroed[k].term| > 0 {
      ActiveIds(zeroed, k);
    }
    assert forall k :: 0 <= k < |ts| ==> ts[k].id == zeroed[k].id;
  }

  /**
   * The parts of one collected leaf rebuilt in a fragment: a span for each part equal to the
   * term under the row's case rule, a text node for every other part (content.js:441-463).
   */
  method PaintParts(p: Painter, term: string, isCaseSensitive: bool, parts: seq<string>)
    returns (fragment: seq<Node>, hits: nat)
    requires p.m.term == term && p.m.caseSensitive == isCaseSensitive
    ensures fragment == Paint(p, parts) && hits == MatchCount(p.m, parts)
  {
    fragment := [];
    hits := 0;
    var k := 0;
    while k < |parts|
      invariant 0 <= k <= |parts|
      invariant fragment == Paint(p, parts[..k])
      invariant hits == MatchCount(p.m, parts[..k])
    {
      var part := parts[k];
      var isMatch := if isCaseSensitive then part == term else Lower(p.m.fold, part) == Lower(p.m.fold, term);
      MatchCountAppend(p.m, parts[..k], [part]);
      assert parts[..k + 1] == parts[..k] + [part];
      if isMatch {
        hits := hits + 1;
        fragment := fragment + [Highlight(p.owner, false, p.style, [Text(part)])];
      } else {
        fragment := fragment + [Text(part)];
      }
      k := k + 1;
    }
    assert parts[..k] == parts;
  }

  /**
   * The second phase of `highlightTerm`: each collected text split around the term and, when a
   * part matched, rebuilt as a fragment; `matchCount` adds up the matched parts (content.js:428, 433-468).
   */
  method BuildFragments(p: Painter, term: string, isCaseSensitive: bool, nodesToReplace: seq<string>)
    returns (fragments: seq<seq<Node>>, matchCount: nat)
    requires p.m.term == term && p.m.caseSensitive == isCaseSensitive && |term| > 0
    ensures fragments == FragsOf(p, nodesToReplace) && matchCount == Hits(p.m, nodesToReplace)
  {
    matchCount := 0;
    fragments := [];
    var j := 0;
    while j < |nodesToReplace|
      invariant 0 <= j <= |nodesToReplace|
      invariant fragments == FragsOf(p, nodesToReplace[..j])
      invariant matchCount == Hits(p.m, nodesToReplace[..j])
    {
      var text := nodesToReplace[j];
      var parts := Split(p.m, text);
      var fragment, found := PaintParts(p, term, isCaseSensitive, parts);
      var hasMatch := found > 0;
      matchCount := matchCount + found;
      assert nodesToReplace[..j + 1] == nodesToReplace[..j] + [text];
      HitsAppend(p.m, nodesToReplace[..j], [text]);
      FragsOfAppend(p, nodesToReplace[..j], [text]);
      assert FragsOf(p, [text]) == [Replacement(p, text)];
      // A leaf without a matching part is left as it is.
      fragments := fragments + [if hasMatch then fragment else [Text(text)]];
      j := j + 1;
    }
    assert nodesToReplace[..j] == nodesToReplace;
  }

  class MultiSearch {
    /** `searchTerms`, in row order. */
    var terms: seq<SearchTerm>
    /** The children of `document.body`; the panel is the element with the panel flag. */
    var body: seq<Node>
    /** The per-character fold `toLowerCase` applies. */
    const fold: char -> char
    /** The page as it was before any highlighting. */
    ghost const page: seq<Node>

    /** What holds between any two operations, even halfway through a search. */
    ghost predicate Wellformed()
      reads this
    {
      && UniqueIds(terms)
      && (forall k :: 0 <= k < |terms| ==> terms[k].currentIndex >= -1)
      && HighlightFree(page)
      && TextContent(body) == TextContent(page)
      && (Inv(page, false) ==> ClearNodes(body, false) == page && Inv(body, false))
    }

    /**
     * What holds after every operation: each row's spans are as many as its count, the one at
     * its index is the active one, and no span belongs to a row that is gone.
     */
    ghost predicate Valid()
      reads this
    {
      Wellformed() && SpansAgree(terms, body)
    }

    /** The script starts with one empty row of id 0 over an unhighlighted page (content.js:7). */
    constructor (page: seq<Node>, fold: char -> char, color: string)
      requires HighlightFree(page)
      ensures Valid()
      ensures this.page == page && this.fold == fold && body == page && terms == [NewRecord(0, color)]
    {
      this.page := page;
      this.fold := fold;
      body := page;
      terms := [NewRecord(0, color)];
      new;
      ClearFree(page);
      forall q ensures Owned(body, q) == [] {
        HighlightFreeOwnsNothing(page, q);
      }
    }

    /** Marks the span at the row's index active and every other span of the row inactive. */
    method UpdateActiveState(id: int)
      modifies this
      requires Wellformed()
      ensures Wellformed()
      ensures terms == old(terms) && Strip(body) == Strip(old(body))
      ensures forall q :: q != id ==> Owned(body, q) == Owned(old(body), q)
      ensures Find(terms, id).None? ==> body == old(body)
      ensures Find(terms, id).Some? ==>
        Owned(body, id) == Marks(|Owned(old(body), id)|, terms[Find(terms, id).value].currentIndex)
    {
      var found := Find(terms, id);
      if found.None? {
        return;
      }
      var cur := terms[found.value].currentIndex;
      var n := |Owned(body, id)|;
      var k := 0;
      while k < n
        invariant 0 <= k <= n
        invariant terms == old(terms)
        invariant Owned(body, id) == Marks(k, cur) + Owned(old(body), id)[k..]
        invariant Strip(body) == Strip(old(body))
        invariant forall q :: q != id ==> Owned(body, q) == Owned(old(body), q)
      {
        var next := SetFlagAt(body, id, k, k == cur);
        SetFlagOwned(body, id, k, k == cur);
        MarksStep(Marks(k, cur), Owned(old(body), id)[k..], k, cur);
        assert Owned(old(body), id)[k..][1..] == Owned(old(body), id)[k + 1..];
        SetFlagStrip(body, id, k, k == cur);
        forall q | q != id ensures Owned(next, q) == Owned(body, q) {
          SetFlagOthers(body, id, k, k == cur, q);
        }
        body := next;
        k := k + 1;
      }
      SameUpToMarks(old(body), body);
    }

    /**
     * The first phase of `highlightTerm`: the tree walker's text leaves in document order, kept
     * when outside the panel, not under SCRIPT or STYLE, and matching (content.js:414-427).
     */
    method CollectCandidates(m: Matcher) returns (nodesToReplace: seq<string>)
      ensures nodesToReplace == Candidates(m, Leaves(body, BodyCtx))
    {
      var leaves := Leaves(body, BodyCtx);
      nodesToReplace := [];
      var i := 0;
      while i < |leaves|
        invariant 0 <= i <= |leaves|
        invariant nodesToReplace == Candidates(m, leaves[..i])
      {
        var leaf := leaves[i];
        CandidatesAppend(m, leaves[..i], [leaf]);
        assert leaves[..i + 1] == leaves[..i] + [leaf];
        if Eligible(leaf.ctx) && HasMatch(m, leaf.text) {
          nodesToReplace := nodesToReplace + [leaf.text];
        }
        i := i + 1;
      }
      assert leaves[..i] == leaves;
    }

    /**
     * Highlights one term: collects the eligible text leaves that match, replaces each by its
     * painted split, stores the count and clamps the index, then marks the active span.
     */
    method HighlightTerm(term: string, color: string, itemId: int, isCaseSensitive: bool)
      modifies this
      requires Wellformed()
      ensures Wellformed()
      ensures |term| == 0 ==> terms == old(terms) && body == old(body)
      ensures |term| > 0 ==>
        Highlighted(PainterOf(term, color, itemId, isCaseSensitive, fold), old(terms), old(body), terms, body)
    {
      if |term| == 0 {
        return;
      }
      EscapeThenRead(term);
      var pattern := EscapeRegExp(term);
      var m := Matcher(LiteralOf(pattern).value, isCaseSensitive, fold);
      var style := Style(HexToRgb(color), ContrastColor(color));
      var p := Painter(m, itemId, style);
      assert p == PainterOf(term, color, itemId, isCaseSensitive, fold);

      var nodesToReplace := CollectCandidates(m);
      var fragments, matchCount := BuildFragments(p, term, isCaseSensitive, nodesToReplace);

      ghost var before := body;
      SubstituteScan(body, BodyCtx, p, []);
      assert fragments + [] == fragments;
      body := Substitute(body, BodyCtx, m, fragments).0;
      ScanFacts(before, p);
      StoreCount(itemId, matchCount);
      UpdateActiveState(itemId);
    }

    /** `termObj.count = matchCount` and the index clamp, for the row with the id if there is one. */
    method StoreCount(itemId: int, matchCount: nat)
      modifies this`terms
      requires UniqueIds(terms) && forall k :: 0 <= k < |terms| ==> terms[k].currentIndex >= -1
      ensures UniqueIds(terms) && forall k :: 0 <= k < |terms| ==> terms[k].currentIndex >= -1
      ensures Find(old(terms), itemId).None? ==> terms == old(terms)
      ensures Find(old(terms), itemId).Some? ==>
        var i := Find(old(terms), itemId).value;
        terms == old(terms)[i := Rescanned(old(terms)[i], matchCount)] && Find(terms, itemId) == Some(i)
    {
      var found := Find(terms, itemId);
      if found.Some? {
        var t := terms[found.value];
        var cur := t.currentIndex;
        if matchCount == 0 {
          cur := -1;
        } else if cur >= matchCount {
          cur := 0;
        }
        terms := terms[found.value := t.(count := matchCount, currentIndex := cur)];
        assert forall k :: 0 <= k < |terms| ==> terms[k].id == old(terms)[k].id;
        FindUnique(terms, found.value);
      }
    }

    /** The state `performSearch` leaves, given the registry `ts` and the page `before` it started from. */
    ghost predicate Searched(ts: seq<SearchTerm>, before: seq<Node>)
      reads this
    {
      && AllActive(Active(ts))
      && Strip(body) == ScanAll(ClearNodes(before, false), Active(ts), fold)
      && |terms| == |ts|
      && forall k :: 0 <= k < |terms| ==>
           terms[k] == if |ts[k].term| > 0 then Rescanned(ts[k], terms[k].count) else ts[k].(count := 0)
    }

    /** Replaces every span by its text, normalizing each parent, and zeroes every count (content.js:393-406). */
    method ClearHighlights()
      modifies this
      requires Wellformed()
      ensures Valid()
      ensures body == ClearNodes(old(body), false) && HighlightFree(body)
      ensures forall q :: Owned(body, q) == []
      ensures terms == ZeroCounts(old(terms))
    {
      ghost var start := body;
      body := ClearNodes(body, false);
      ClearRemovesAll(start, false);
      ClearText(start, false);
      ClearIdempotent(start, false);
      forall q ensures Owned(body, q) == [] {
        HighlightFreeOwnsNothing(body, q);
      }
      var i := 0;
      while i < |terms|
        invariant 0 <= i <= |terms| && |terms| == |old(terms)|
        invariant body == ClearNodes(start, false)
        invariant forall k :: 0 <= k < i ==> terms[k] == old(terms)[k].(count := 0)
        invariant forall k :: i <= k < |terms| ==> terms[k] == old(terms)[k]
      {
        terms := terms[i := terms[i].(count := 0)];
        i := i + 1;
      }
      assert forall k :: 0 <= k < |terms| ==> terms[k].id == old(terms)[k].id;
    }

    /** Clears the page, then highlights every row with a term, in row order (content.js:382-391). */
    method PerformSearch()
      modifies this
      requires Wellformed()
      ensures Valid()
      ensures Searched(old(terms), old(body))
    {
      ClearHighlights();
      ghost var cleared := body;
      ghost var zeroed := terms;
      var activeTerms := Active(terms);
      SearchSetup(old(terms), cleared, fold);
      if |activeTerms| > 0 {
        HighlightEach(activeTerms);
      } else {
        assert Ids(activeTerms) == [];
      }
      SearchComplete(zeroed, terms, body);
    }

    /** `activeTerms.forEach(item => highlightTerm(...))` over a page without spans. */
    method HighlightEach(activeTerms: seq<SearchTerm>)
      modifies this
      requires Wellformed() && activeTerms == Active(terms) && UniqueIds(activeTerms) && AllActive(activeTerms)
      requires forall q :: Owned(body, q) == []
      ensures Wellformed()
      ensures Strip(body) == ScanAll(Strip(old(body)), activeTerms, fold)
      ensures SearchedSoFar(old(terms), Ids(activeTerms), terms, body)
    {
      ghost var start := Strip(body);
      ghost var zeroed := terms;
      assert SearchedSoFar(zeroed, Ids(activeTerms[..0]), terms, body) by {
        assert Ids(activeTerms[..0]) == [];
      }
      var j := 0;
      while j < |activeTerms|
        invariant 0 <= j <= |activeTerms|
        invariant Wellformed()
        invariant Strip(body) == ScanAll(start, activeTerms[..j], fold)
        invariant SearchedSoFar(zeroed, Ids(activeTerms[..j]), terms, body)
      {
        var item := activeTerms[j];
        ghost var done := Ids(activeTerms[..j]);
        ghost var i0 := NextRow(zeroed, activeTerms, j);
        IdsSnoc(activeTerms, j);
        ScanAllSnoc(start, activeTerms, j, fold);
        ghost var ts0, ns0 := terms, body;
        HighlightTerm(item.term, item.color, item.id, item.caseSensitive);
        SearchStep(zeroed, done, item, i0, fold, ts0, ns0, terms, body);
        j := j + 1;
      }
      assert activeTerms[..j] == activeTerms;
    }

    /** Appends an empty row whose id is one past the largest (content.js:223-226). */
    method AddSearchRow(color: string) returns (newId: int)
      modifies this`terms
      requires Valid()
      ensures Valid()
      ensures newId == NewId(old(terms)) && terms == old(terms) + [NewRecord(newId, color)]
    {
      newId := NewId(terms);
      NewIdFresh(terms, color);
      assert newId !in Ids(terms);
      terms := terms + [NewRecord(newId, color)];
      assert Ids(terms) == Ids(old(terms)) + [newId];
    }

    /** Drops the row with the id and searches again (content.js:238-242). */
    method RemoveRow(id: int)
      modifies this
      requires Wellformed()
      ensures Valid()
      ensures Searched(Remove(old(terms), id), old(body))
    {
      RemoveKeepsUnique(terms, id);
      terms := Remove(terms, id);
      assert forall k :: 0 <= k < |terms| ==> terms[k] in old(terms);
      PerformSearch();
    }

    /** Sets the row's case rule and searches again; an unknown id changes nothing (content.js:247-258). */
    method ToggleCase(id: int, isChecked: bool)
      modifies this
      requires Wellformed()
      ensures Find(old(terms), id).None? ==> terms == old(terms) && body == old(body)
      ensures Find(old(terms), id).Some? ==>
        Valid() && Searched(old(terms)[Find(old(terms), id).value := old(terms)[Find(old(terms), id).value].(caseSensitive := isChecked)], old(body))
    {
      var found := Find(terms, id);
      if found.Some? {
        var i := found.value;
        terms := terms[i := terms[i].(caseSensitive := isChecked)];
        assert forall k :: 0 <= k < |terms| ==> terms[k].id == old(terms)[k].id;
        PerformSearch();
      }
    }

    /** The row's input handler: new term, index reset, search again (content.js:297-301). */
    method InputTerm(id: int, value: string)
      modifies this
      requires Wellformed()
      ensures Find(old(terms), id).None? ==> terms == old(terms) && body == old(body)
      ensures Find(old(terms), id).Some? ==>
        Valid() && Searched(old(terms)[Find(old(terms), id).value := old(terms)[Find(old(terms), id).value].(term := value, currentIndex := -1)], old(body))
    {
      var found := Find(terms, id);
      if found.Some? {
        var i := found.value;
        terms := terms[i := terms[i].(term := value, currentIndex := -1)];
        assert forall k :: 0 <= k < |terms| ==> terms[k].id == old(terms)[k].id;
        PerformSearch();
      }
    }

    /**
     * Moves the row's index one step in `direction`, wrapping at both ends, and marks the span
     * there active; returns the index of the span scrolled to (content.js:335-363).
     */
    method NavigateMatch(id: int, direction: int) returns (target: Option<nat>)
      modifies this
      requires Valid()
      ensures Valid()
      ensures Find(old(terms), id).None? || old(terms)[Find(old(terms), id).value].count == 0 ==>
        target.None? && terms == old(terms) && body == old(body)
      ensures Find(old(terms), id).Some? && old(terms)[Find(old(terms), id).value].count > 0 ==>
        var i := Find(old(terms), id).value;
        var next := NextIndex(old(terms)[i].currentIndex, direction, old(terms)[i].count);
        && target == Some(next)
        && terms == old(terms)[i := old(terms)[i].(currentIndex := next)]
        && Owned(body, id) == Marks(terms[i].count, next)
        && Strip(body) == Strip(old(body))
        && (forall q :: q != id ==> Owned(body, q) == Owned(old(body), q))
    {
      var found := Find(terms, id);
      if found.None? || terms[found.value].count == 0 {
        return None;
      }
      var i := found.value;
      SpansOfRow(terms, body, i);
      var highlights := |Owned(body, id)|;
      if highlights == 0 {
        return None;
      }
      var newIndex := terms[i].currentIndex + direction;
      if newIndex >= highlights {
        newIndex := 0;
      } else if newIndex < 0 {
        newIndex := highlights - 1;
      }
      assert newIndex == NextIndex(terms[i].currentIndex, direction, terms[i].count);
      ghost var ts0, ns0 := terms, body;
      terms := terms[i := terms[i].(currentIndex := newIndex)];
      assert forall k :: 0 <= k < |terms| ==> terms[k].id == ts0[k].id;
      FindUnique(terms, i);
      target := Some(newIndex);
      UpdateActiveState(id);
      NavigateAgree(ts0, ns0, i, newIndex, body);
    }

    /** The text `updateCountDisplay` puts in the row's count element (content.js:484-497). */
    function CountText(id: int): (r: Option<string>)
      reads this
      ensures r.Some? <==> Find(terms, id).Some?
    {
      RowText(terms, id)
    }

    /** In a valid state the count label shows the row's position and the number of its spans on the page. */
    lemma CountTextShowsSpans(id: int)
      requires Valid() && Find(terms, id).Some?
      ensures var t := terms[Find(terms, id).value];
        |Owned(body, id)| > 0 ==> ParseLabel(CountText(id).value) == Some((t.currentIndex + 1, |Owned(body, id)|))
      ensures |Owned(body, id)| == 0 ==> CountText(id) == Some("")
    {
      var ts, ns := terms, body;
      assert SpansAgree(ts, ns) && ts[Find(ts, id).value].currentIndex >= -1;
      RowTextShowsSpans(ts, ns, id);
      assert CountText(id) == RowText(ts, id);
    }
  }
}
