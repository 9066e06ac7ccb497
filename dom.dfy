/**
 * The part of the page the engine reads and rewrites: text leaves, the highlight spans it
 * inserts (`es-highlight-<id>`, optionally `es-match-active`) and every other element. An
 * element carries its upper-case tag name and whether it is the tool's own floating panel
 * (`container`); a page is the child list of `document.body`.
 */
module Dom {
  import opened Colors
  import opened Seqs

  /** The inline style of a span: its background channels and its text colour (content.js:430-431). */
  datatype Style = Style(background: Rgb, text: Shade)

  datatype Node =
    | Text(value: string)
    | Highlight(owner: int, active: bool, style: Style, children: seq<Node>)
    | Element(tag: string, panel: bool, children: seq<Node>)

  /** `textContent`: the concatenated text of the leaves, in document order. */
  function TextContent(ns: seq<Node>): string
    decreases ns
  {
    if ns == [] then []
    else if ns[0].Text? then ns[0].value + TextContent(ns[1..])
    else TextContent(ns[0].children) + TextContent(ns[1..])
  }

  lemma {:induction false} TextContentAppend(a: seq<Node>, b: seq<Node>)
    ensures TextContent(a + b) == TextContent(a) + TextContent(b)
  {
    if a != [] {
      assert (a + b)[0] == a[0] && (a + b)[1..] == a[1..] + b;
      TextContentAppend(a[1..], b);
    } else {
      assert a + b == b;
    }
  }

  /**
   * The active flags of the spans of term `id`, in the order `querySelectorAll` returns them:
   * document order, a span before the spans nested in it.
   */
  function Owned(ns: seq<Node>, id: int): seq<bool>
    decreases ns
  {
    if ns == [] then []
    else if ns[0].Text? then Owned(ns[1..], id)
    else
      (if ns[0].Highlight? && ns[0].owner == id then [ns[0].active] else [])
      + Owned(ns[0].children, id) + Owned(ns[1..], id)
  }

  lemma {:induction false} OwnedAppend(a: seq<Node>, b: seq<Node>, id: int)
    ensures Owned(a + b, id) == Owned(a, id) + Owned(b, id)
  {
    if a != [] {
      OwnedAppend(a[1..], b, id);
      OwnedAppendStep(a, b, id);
    } else {
      assert a + b == b;
    }
  }

  /** One step of `OwnedAppend`: from the rest of `a` to all of it. */
  lemma OwnedAppendStep(a: seq<Node>, b: seq<Node>, id: int)
    requires a != [] && Owned(a[1..] + b, id) == Owned(a[1..], id) + Owned(b, id)
    ensures Owned(a + b, id) == Owned(a, id) + Owned(b, id)
  {
    var ab := a + b;
    ConsAppend(a, b);
    OwnedCons(ab, id);
    OwnedCons(a, id);
    var h := Owned([a[0]], id);
    assert Owned(ab, id) == h + (Owned(a[1..], id) + Owned(b, id));
  }

  /** The flags of a list are those of its first node followed by those of the rest. */
  lemma OwnedCons(ns: seq<Node>, id: int)
    requires ns != []
    ensures Owned(ns, id) == Owned([ns[0]], id) + Owned(ns[1..], id)
  {
    assert [ns[0]][1..] == [];
  }

  /** No span anywhere in the forest. */
  predicate HighlightFree(ns: seq<Node>)
    decreases ns
  {
    ns == [] ||
    (!ns[0].Highlight? && (ns[0].Element? ==> HighlightFree(ns[0].children)) && HighlightFree(ns[1..]))
  }

  lemma {:induction false} HighlightFreeOwnsNothing(ns: seq<Node>, id: int)
    requires HighlightFree(ns)
    ensures Owned(ns, id) == []
    decreases ns
  {
    if ns != [] {
      if ns[0].Element? {
        HighlightFreeOwnsNothing(ns[0].children, id);
      }
      HighlightFreeOwnsNothing(ns[1..], id);
    }
  }

  /** Without spans there is no marker to remove. */
  lemma {:induction false} StripFree(ns: seq<Node>)
    requires HighlightFree(ns)
    ensures Strip(ns) == ns
    decreases ns
  {
    if ns != [] {
      if ns[0].Element? {
        StripFree(ns[0].children);
      }
      StripFree(ns[1..]);
      assert ns == [ns[0]] + ns[1..];
    }
  }

  /** Some direct child is a span: the list's parent is one the clear loop normalizes. */
  predicate HasHighlightChild(ns: seq<Node>) {
    exists i :: 0 <= i < |ns| && ns[i].Highlight?
  }

  /** The forest with every `es-match-active` marker removed. */
  function Strip(ns: seq<Node>): seq<Node>
    decreases ns
  {
    if ns == [] then []
    else if ns[0].Text? then [ns[0]] + Strip(ns[1..])
    else if ns[0].Highlight? then [Highlight(ns[0].owner, false, ns[0].style, Strip(ns[0].children))] + Strip(ns[1..])
    else [Element(ns[0].tag, ns[0].panel, Strip(ns[0].children))] + Strip(ns[1..])
  }

  lemma {:induction false} StripAppend(a: seq<Node>, b: seq<Node>)
    ensures Strip(a + b) == Strip(a) + Strip(b)
  {
    if a != [] {
      StripAppend(a[1..], b);
      ConsAppend(a, b);
      StripCons(a + b);
      StripCons(a);
      AppendAssoc(Strip([a[0]]), Strip(a[1..]), Strip(b));
    } else {
      assert a + b == b;
    }
  }

  /** The stripped list is the stripped first node followed by the stripped rest. */
  lemma StripCons(ns: seq<Node>)
    requires ns != []
    ensures Strip(ns) == Strip([ns[0]]) + Strip(ns[1..])
  {
    var h := [ns[0]];
    assert h[0] == ns[0] && h[1..] == [] && Strip(h[1..]) == [];
    var x := if ns[0].Text? then ns[0]
      else if ns[0].Highlight? then Highlight(ns[0].owner, false, ns[0].style, Strip(ns[0].children))
      else Element(ns[0].tag, ns[0].panel, Strip(ns[0].children));
    assert Strip(h) == [x] + [];
    assert [x] + [] == [x];
    assert Strip(ns) == [x] + Strip(ns[1..]);
  }

  /** Removing the markers keeps the text. */
  lemma {:induction false} StripKeepsText(ns: seq<Node>)
    ensures TextContent(Strip(ns)) == TextContent(ns)
    decreases ns
  {
    if ns != [] {
      StripKeepsText(ns[1..]);
      match ns[0]
      case Text(_) =>
      case Highlight(_, _, _, ch) => StripKeepsText(ch);
      case Element(_, _, ch) => StripKeepsText(ch);
    }
  }

  /** `n` inactive spans. */
  function Falses(n: nat): (r: seq<bool>)
    ensures |r| == n
  {
    seq(n, _ => false)
  }

  lemma FalsesAppend(x: nat, y: nat)
    ensures Falses(x) + Falses(y) == Falses(x + y)
  {
  }

  /** Removing the markers keeps every span, inactive. */
  lemma {:induction false} StripOwned(ns: seq<Node>, id: int)
    ensures Owned(Strip(ns), id) == Falses(|Owned(ns, id)|)
    decreases ns
  {
    if ns != [] {
      StripOwnedNode(ns[0], id);
      StripOwned(ns[1..], id);
      StripCons(ns);
      OwnedAppend(Strip([ns[0]]), Strip(ns[1..]), id);
      OwnedCons(ns, id);
      FalsesAppend(|Owned([ns[0]], id)|, |Owned(ns[1..], id)|);
    }
  }

  lemma {:induction false} StripOwnedNode(n: Node, id: int)
    ensures Owned(Strip([n]), id) == Falses(|Owned([n], id)|)
    decreases n
  {
    OwnedSingle(n, id);
    assert [n][1..] == [];
    match n
    case Text(_) =>
      assert Strip([n]) == [n];
    case Highlight(o, a, s, ch) =>
      StripOwned(ch, id);
      var n' := Highlight(o, false, s, Strip(ch));
      assert Strip([n]) == [n'];
      OwnedSingle(n', id);
      if o == id {
        FalsesAppend(1, |Owned(ch, id)|);
      } else {
        assert [] + Owned(ch, id) == Owned(ch, id) && [] + Owned(Strip(ch), id) == Owned(Strip(ch), id);
      }
    case Element(t, p, ch) =>
      StripOwned(ch, id);
      var n' := Element(t, p, Strip(ch));
      assert Strip([n]) == [n'];
      OwnedSingle(n', id);
      assert [] + Owned(ch, id) == Owned(ch, id) && [] + Owned(Strip(ch), id) == Owned(Strip(ch), id);
  }

  /** `n` spans of which only the one at `cur` carries the active marker. */
  function Marks(n: nat, cur: int): (r: seq<bool>)
    ensures |r| == n && forall k :: 0 <= k < n ==> (r[k] <==> k == cur)
  {
    seq(n, k => k == cur)
  }

  /**
   * `classList.add` / `classList.remove('es-match-active')` on the `k`-th span of term `id`
   * (counted as in `Owned`), setting its marker to `b`.
   */
  function SetFlagAt(ns: seq<Node>, id: int, k: int, b: bool): seq<Node>
    decreases ns
  {
    if ns == [] then []
    else
      var c := |Owned([ns[0]], id)|;
      if 0 <= k < c then [SetFlagIn(ns[0], id, k, b)] + ns[1..]
      else [ns[0]] + SetFlagAt(ns[1..], id, k - c, b)
  }

  function SetFlagIn(n: Node, id: int, k: int, b: bool): Node
    decreases n
  {
    if n.Text? then n
    else if n.Highlight? then
      if n.owner == id && k == 0 then Highlight(n.owner, b, n.style, n.children)
      else Highlight(n.owner, n.active, n.style, SetFlagAt(n.children, id, if n.owner == id then k - 1 else k, b))
    else Element(n.tag, n.panel, SetFlagAt(n.children, id, k, b))
  }

  lemma OwnedSingle(n: Node, id: int)
    ensures n.Text? ==> Owned([n], id) == []
    ensures !n.Text? ==>
      Owned([n], id) == (if n.Highlight? && n.owner == id then [n.active] else []) + Owned(n.children, id)
  {
    assert [n][1..] == [];
  }

  /** Setting one marker changes exactly that entry of the term's flags. */
  lemma {:induction false} SetFlagOwned(ns: seq<Node>, id: int, k: int, b: bool)
    requires 0 <= k < |Owned(ns, id)|
    ensures Owned(SetFlagAt(ns, id, k, b), id) == Owned(ns, id)[k := b]
    decreases ns
  {
    var head := ns[0];
    var c := |Owned([head], id)|;
    OwnedAppend([head], ns[1..], id);
    assert [head] + ns[1..] == ns;
    if k < c {
      SetFlagInOwned(head, id, k, b);
      OwnedAppend([SetFlagIn(head, id, k, b)], ns[1..], id);
    } else {
      SetFlagOwned(ns[1..], id, k - c, b);
      OwnedAppend([head], SetFlagAt(ns[1..], id, k - c, b), id);
    }
  }

  lemma {:induction false} SetFlagInOwned(n: Node, id: int, k: int, b: bool)
    requires 0 <= k < |Owned([n], id)|
    ensures Owned([SetFlagIn(n, id, k, b)], id) == Owned([n], id)[k := b]
    decreases n
  {
    OwnedSingle(n, id);
    match n
    case Text(_) =>
    case Highlight(o, a, s, ch) =>
      if o == id && k == 0 {
        OwnedSingle(Highlight(o, b, s, ch), id);
        UpdateHead(a, Owned(ch, id), b);
      } else if o == id {
        var ch' := SetFlagAt(ch, id, k - 1, b);
        OwnedSingle(Highlight(o, a, s, ch'), id);
        SetFlagOwned(ch, id, k - 1, b);
        UpdateTail(a, Owned(ch, id), k - 1, b);
      } else {
        var ch' := SetFlagAt(ch, id, k, b);
        OwnedSingle(Highlight(o, a, s, ch'), id);
        SetFlagOwned(ch, id, k, b);
        assert [] + Owned(ch, id) == Owned(ch, id) && [] + Owned(ch', id) == Owned(ch', id);
      }
    case Element(t, p, ch) =>
      var ch' := SetFlagAt(ch, id, k, b);
      OwnedSingle(Element(t, p, ch'), id);
      SetFlagOwned(ch, id, k, b);
      assert [] + Owned(ch, id) == Owned(ch, id) && [] + Owned(ch', id) == Owned(ch', id);
  }

  /** Setting a marker of term `id` leaves the spans of every other term as they were. */
  lemma {:induction false} SetFlagOthers(ns: seq<Node>, id: int, k: int, b: bool, q: int)
    requires q != id
    ensures Owned(SetFlagAt(ns, id, k, b), q) == Owned(ns, q)
    decreases ns
  {
    if ns != [] {
      var head := ns[0];
      var c := |Owned([head], id)|;
      OwnedAppend([head], ns[1..], q);
      assert [head] + ns[1..] == ns;
      if 0 <= k < c {
        SetFlagInOthers(head, id, k, b, q);
        OwnedAppend([SetFlagIn(head, id, k, b)], ns[1..], q);
      } else {
        SetFlagOthers(ns[1..], id, k - c, b, q);
        OwnedAppend([head], SetFlagAt(ns[1..], id, k - c, b), q);
      }
    }
  }

  lemma {:induction false} SetFlagInOthers(n: Node, id: int, k: int, b: bool, q: int)
    requires q != id
    ensures Owned([SetFlagIn(n, id, k, b)], q) == Owned([n], q)
    decreases n
  {
    OwnedSingle(n, q);
    OwnedSingle(SetFlagIn(n, id, k, b), q);
    match n
    case Text(_) =>
    case Highlight(o, a, s, ch) =>
      if !(o == id && k == 0) {
        SetFlagOthers(ch, id, if o == id then k - 1 else k, b, q);
      }
    case Element(t, p, ch) =>
      SetFlagOthers(ch, id, k, b, q);
  }

  /** Setting a marker changes nothing but markers. */
  lemma {:induction false} SetFlagStrip(ns: seq<Node>, id: int, k: int, b: bool)
    ensures Strip(SetFlagAt(ns, id, k, b)) == Strip(ns)
    decreases ns
  {
    if ns != [] {
      var head := ns[0];
      var c := |Owned([head], id)|;
      StripAppend([head], ns[1..]);
      assert [head] + ns[1..] == ns;
      if 0 <= k < c {
        SetFlagInStrip(head, id, k, b);
        StripAppend([SetFlagIn(head, id, k, b)], ns[1..]);
      } else {
        SetFlagStrip(ns[1..], id, k - c, b);
        StripAppend([head], SetFlagAt(ns[1..], id, k - c, b));
      }
    }
  }

  lemma {:induction false} SetFlagInStrip(n: Node, id: int, k: int, b: bool)
    ensures Strip([SetFlagIn(n, id, k, b)]) == Strip([n])
    decreases n
  {
    assert [n][1..] == [] && [SetFlagIn(n, id, k, b)][1..] == [];
    match n
    case Text(_) =>
    case Highlight(o, a, s, ch) =>
      if !(o == id && k == 0) {
        SetFlagStrip(ch, id, if o == id then k - 1 else k, b);
      }
    case Element(t, p, ch) =>
      SetFlagStrip(ch, id, k, b);
  }

  /** `HighlightFree` node by node. */
  lemma {:induction false} HighlightFreeAt(ns: seq<Node>)
    ensures HighlightFree(ns) <==>
      forall i :: 0 <= i < |ns| ==> !ns[i].Highlight? && (ns[i].Element? ==> HighlightFree(ns[i].children))
  {
    if ns != [] {
      HighlightFreeAt(ns[1..]);
      assert forall i :: 1 <= i < |ns| ==> ns[i] == ns[1..][i - 1];
    }
  }

  lemma HasHighlightChildAppend(a: seq<Node>, b: seq<Node>)
    ensures HasHighlightChild(a + b) <==> HasHighlightChild(a) || HasHighlightChild(b)
  {
    if HasHighlightChild(a + b) {
      var i :| 0 <= i < |a + b| && (a + b)[i].Highlight?;
      if i >= |a| {
        assert b[i - |a|] == (a + b)[i];
      }
    }
    if HasHighlightChild(a) {
      var i :| 0 <= i < |a| && a[i].Highlight?;
      assert (a + b)[i] == a[i];
    }
    if HasHighlightChild(b) {
      var i :| 0 <= i < |b| && b[i].Highlight?;
      assert (a + b)[|a| + i] == b[i];
    }
  }

  /** `Strip` node by node. */
  lemma {:induction false} StripAt(ns: seq<Node>)
    ensures |Strip(ns)| == |ns|
    ensures forall i :: 0 <= i < |ns| ==>
      && (ns[i].Text? ==> Strip(ns)[i] == ns[i])
      && (ns[i].Highlight? ==> Strip(ns)[i] == Highlight(ns[i].owner, false, ns[i].style, Strip(ns[i].children)))
      && (ns[i].Element? ==> Strip(ns)[i] == Element(ns[i].tag, ns[i].panel, Strip(ns[i].children)))
  {
    if ns != [] {
      StripAt(ns[1..]);
      assert forall i :: 1 <= i < |ns| ==> ns[i] == ns[1..][i - 1] && Strip(ns)[i] == Strip(ns[1..])[i - 1];
    }
  }
}
