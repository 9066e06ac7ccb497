/**
 * The term registry `searchTerms` (content.js:7) and the pure rules the engine applies to its
 * records: id allocation (content.js:224), removal (content.js:239), lookup by id, the index
 * clamp after a scan (content.js:474-478), the wrap-around of navigation (content.js:344-349)
 * and the count label (content.js:490-492).
 */
module Registry {
  import opened Wrappers
  import opened Seqs

  /** One search row. `color` is the `#rrggbb` string the row was created with. */
  datatype SearchTerm = SearchTerm(
    id: int, term: string, count: nat, color: string, caseSensitive: bool, currentIndex: int)

  /** The record a new row starts with (content.js:7, 226). */
  function NewRecord(id: int, color: string): (t: SearchTerm)
    ensures t.id == id && t.color == color && t.caseSensitive
    ensures Active([t]) == [] && CountLabel(t.count, t.currentIndex) == ""
  {
    SearchTerm(id, "", 0, color, true, -1)
  }

  /** The ids in registry order. */
  function Ids(ts: seq<SearchTerm>): (r: seq<int>)
    ensures |r| == |ts| && forall k :: 0 <= k < |ts| ==> r[k] == ts[k].id
  {
    seq(|ts|, k requires 0 <= k < |ts| => ts[k].id)
  }

  ghost predicate UniqueIds(ts: seq<SearchTerm>) {
    forall j, k :: 0 <= j < k < |ts| ==> ts[j].id != ts[k].id
  }

  /** `Math.max(...searchTerms.map(t => t.id))`. */
  function MaxId(ts: seq<SearchTerm>): (r: int)
    requires ts != []
    ensures forall k :: 0 <= k < |ts| ==> ts[k].id <= r
    ensures exists k :: 0 <= k < |ts| && ts[k].id == r
  {
    if |ts| == 1 then ts[0].id
    else
      var rest := MaxId(ts[1..]);
      assert forall k :: 1 <= k < |ts| ==> ts[k] == ts[1..][k - 1];
      if ts[0].id >= rest then ts[0].id else rest
  }

  /** The id `addSearchRow` gives a new row: one past the largest id, or 0 for an empty registry. */
  function NewId(ts: seq<SearchTerm>): (r: int)
    ensures forall k :: 0 <= k < |ts| ==> ts[k].id < r
  {
    if |ts| > 0 then MaxId(ts) + 1 else 0
  }

  /** `searchTerms.filter(t => t.id !== id)`. */
  function Remove(ts: seq<SearchTerm>, id: int): (r: seq<SearchTerm>)
    ensures forall t :: t in r <==> t in ts && t.id != id
  {
    if ts == [] then []
    else (if ts[0].id != id then [ts[0]] else []) + Remove(ts[1..], id)
  }

  /** `searchTerms.filter(t => t.term.length > 0)`: the rows `performSearch` scans. */
  function Active(ts: seq<SearchTerm>): (r: seq<SearchTerm>)
    ensures forall t :: t in r <==> t in ts && |t.term| > 0
  {
    if ts == [] then []
    else (if |ts[0].term| > 0 then [ts[0]] else []) + Active(ts[1..])
  }

  /** `searchTerms.find(t => t.id === id)`: the first row with that id. */
  function Find(ts: seq<SearchTerm>, id: int): (r: Option<nat>)
    ensures r.Some? ==> r.value < |ts| && ts[r.value].id == id && forall k :: 0 <= k < r.value ==> ts[k].id != id
    ensures r.None? ==> forall k :: 0 <= k < |ts| ==> ts[k].id != id
  {
    if ts == [] then None
    else if ts[0].id == id then Some(0)
    else
      match Find(ts[1..], id)
      case None => None
      case Some(k) => Some(k + 1)
  }

  /** The index after a scan that found `n` matches (content.js:474-478). */
  function Clamp(cur: int, n: nat): (r: int)
    ensures cur >= -1 ==> r == -1 || 0 <= r < n
  {
    if n == 0 then -1 else if cur >= n then 0 else cur
  }

  /** The row after a scan of it found `n` matches. */
  function Rescanned(t: SearchTerm, n: nat): (r: SearchTerm)
    ensures r.id == t.id && r.term == t.term && r.color == t.color && r.caseSensitive == t.caseSensitive
    ensures r.count == n
    ensures t.currentIndex >= -1 ==> r.currentIndex == -1 || 0 <= r.currentIndex < n
  {
    t.(count := n, currentIndex := Clamp(t.currentIndex, n))
  }

  /** The index `navigateMatch` moves to among `n` spans (content.js:344-349). */
  function NextIndex(cur: int, dir: int, n: nat): (r: int)
    requires n > 0
    ensures 0 <= r < n
  {
    var k := cur + dir;
    if k >= n then 0 else if k < 0 then n - 1 else k
  }

  // ----- the count label -----

  function Digit(d: nat): char
    requires d < 10
  {
    "0123456789"[d]
  }

  predicate IsDigit(ch: char) {
    '0' <= ch <= '9'
  }

  /** The decimal text of a non-negative integer, as JavaScript prints it. */
  function Decimal(n: nat): (s: string)
    ensures s != [] && forall k :: 0 <= k < |s| ==> IsDigit(s[k])
  {
    if n < 10 then [Digit(n)] else Decimal(n / 10) + [Digit(n % 10)]
  }

  /** The value of a string of digits. */
  function DigitsValue(s: string): nat
    requires forall k :: 0 <= k < |s| ==> IsDigit(s[k])
  {
    if s == [] then 0
    else
      assert IsDigit(s[|s| - 1]);
      DigitsValue(s[..|s| - 1]) * 10 + (s[|s| - 1] as int - '0' as int)
  }

  /** The text of the count element: `current/count`, empty when there is no match (content.js:489-495). */
  function CountLabel(count: nat, cur: int): (s: string)
    ensures s == [] <==> count == 0
  {
    if count > 0 then Decimal(if cur > -1 then cur + 1 else 0) + "/" + Decimal(count) else ""
  }

  /** The first `/` in a string. */
  function SlashAt(s: string): (r: Option<nat>)
    ensures r.Some? ==> r.value < |s| && s[r.value] == '/' && forall k :: 0 <= k < r.value ==> s[k] != '/'
    ensures r.None? ==> forall k :: 0 <= k < |s| ==> s[k] != '/'
  {
    if s == [] then None
    else if s[0] == '/' then Some(0)
    else
      match SlashAt(s[1..])
      case None => None
      case Some(k) => Some(k + 1)
  }

  predicate AllDigits(s: string) {
    s != [] && forall k :: 0 <= k < |s| ==> IsDigit(s[k])
  }

  /** Reading a count label back: the shown position and the count. */
  function ParseLabel(s: string): Option<(nat, nat)> {
    match SlashAt(s)
    case None => None
    case Some(k) =>
      if AllDigits(s[..k]) && AllDigits(s[k + 1..]) then Some((DigitsValue(s[..k]), DigitsValue(s[k + 1..])))
      else None
  }

  // ----- lemmas -----

  /** A new id differs from every id present, so ids stay unique. */
  lemma NewIdFresh(ts: seq<SearchTerm>, color: string)
    requires UniqueIds(ts)
    ensures UniqueIds(ts + [NewRecord(NewId(ts), color)])
  {
    var ts' := ts + [NewRecord(NewId(ts), color)];
    forall j, k | 0 <= j < k < |ts'| ensures ts'[j].id != ts'[k].id {
      if k == |ts| {
        assert ts'[j] == ts[j];
      } else {
        assert ts'[j] == ts[j] && ts'[k] == ts[k];
      }
    }
  }

  /**
   * Ids are not remembered: removing the newest row and adding a row again issues the same id,
   * so an id can be used twice over the registry's life.
   */
  lemma IdReissued(ts: seq<SearchTerm>, color: string)
    requires UniqueIds(ts)
    ensures NewId(Remove(ts + [NewRecord(NewId(ts), color)], NewId(ts))) == NewId(ts)
  {
    var id := NewId(ts);
    RemoveAppend(ts, [NewRecord(id, color)], id);
    RemoveAbsent(ts, id);
    assert Remove([NewRecord(id, color)], id) == [] + Remove([], id);
    assert ts + [] == ts;
  }

  lemma {:induction false} RemoveAppend(a: seq<SearchTerm>, b: seq<SearchTerm>, id: int)
    ensures Remove(a + b, id) == Remove(a, id) + Remove(b, id)
  {
    if a != [] {
      ConsAppend(a, b);
      RemoveAppend(a[1..], b, id);
      var head := if a[0].id != id then [a[0]] else [];
      assert Remove(a + b, id) == head + Remove(a[1..] + b, id);
      assert Remove(a, id) == head + Remove(a[1..], id);
      AppendAssoc(head, Remove(a[1..], id), Remove(b, id));
    } else {
      assert a + b == b;
    }
  }

  /** Removing an id nobody has changes nothing. */
  lemma {:induction false} RemoveAbsent(ts: seq<SearchTerm>, id: int)
    requires forall k :: 0 <= k < |ts| ==> ts[k].id != id
    ensures Remove(ts, id) == ts
  {
    if ts != [] {
      RemoveAbsent(ts[1..], id);
      assert ts == [ts[0]] + ts[1..];
    }
  }

  /** `removeRow` keeps ids unique. */
  lemma {:induction false} RemoveKeepsUnique(ts: seq<SearchTerm>, id: int)
    requires UniqueIds(ts)
    ensures UniqueIds(Remove(ts, id))
  {
    if ts != [] {
      var rest := Remove(ts[1..], id);
      RemoveKeepsUnique(ts[1..], id);
      if ts[0].id != id {
        forall u | u in rest ensures u.id != ts[0].id {
          var k :| 0 <= k < |ts[1..]| && ts[1..][k] == u;
          assert ts[k + 1] == u;
        }
        ConsUnique(ts[0], rest);
        assert Remove(ts, id) == [ts[0]] + rest;
      } else {
        assert Remove(ts, id) == rest;
      }
    }
  }

  /** A row put in front of rows with other ids keeps the ids unique. */
  lemma ConsUnique(t: SearchTerm, rest: seq<SearchTerm>)
    requires UniqueIds(rest) && forall u :: u in rest ==> u.id != t.id
    ensures UniqueIds([t] + rest)
  {
    var r := [t] + rest;
    forall j, k | 0 <= j < k < |r| ensures r[j].id != r[k].id {
      assert r[k] == rest[k - 1] && rest[k - 1] in rest;
      if j > 0 {
        assert r[j] == rest[j - 1];
      }
    }
  }

  /** With unique ids, `find` returns the one row holding the id. */
  lemma FindUnique(ts: seq<SearchTerm>, i: nat)
    requires UniqueIds(ts) && i < |ts|
    ensures Find(ts, ts[i].id) == Some(i)
  {
  }

  /** After a scan with matches an unset index stays unset (content.js:474-478). */
  lemma ClampKeepsUnset(n: nat)
    ensures Clamp(-1, n) == -1
  {
  }

  /** An index inside the matches survives a rescan; one past them restarts at the first. */
  lemma ClampCases(cur: int, n: nat)
    requires n > 0
    ensures 0 <= cur < n ==> Clamp(cur, n) == cur
    ensures cur >= n ==> Clamp(cur, n) == 0
  {
  }

  /** From the unset index, "next" goes to the first match and "previous" to the last. */
  lemma NavigateFromUnset(n: nat)
    requires n > 0
    ensures NextIndex(-1, 1, n) == 0 && NextIndex(-1, -1, n) == n - 1
  {
  }

  /** On a valid index, one step in either direction is a step around a cycle of `n`. */
  lemma NavigateCycles(cur: int, dir: int, n: nat)
    requires n > 0 && -1 <= cur < n && (dir == 1 || dir == -1)
    requires cur == -1 ==> dir == 1
    ensures NextIndex(cur, dir, n) == (cur + dir) % n
  {
    if cur + dir == n {
      assert (cur + dir) % n == 0;
    } else if cur + dir == -1 {
      assert (cur + dir) % n == n - 1;
    }
  }

  lemma {:induction false} DecimalValue(n: nat)
    ensures DigitsValue(Decimal(n)) == n
  {
    if n >= 10 {
      DecimalValue(n / 10);
      var s := Decimal(n);
      assert s[..|s| - 1] == Decimal(n / 10);
    }
  }

  /** The count label reads back as the shown position and the count. */
  lemma CountLabelRoundTrip(count: nat, cur: int)
    requires count > 0
    ensures ParseLabel(CountLabel(count, cur)) == Some((if cur > -1 then cur + 1 else 0, count))
  {
    var shown: nat := if cur > -1 then cur + 1 else 0;
    LabelParts(Decimal(shown), Decimal(count));
    DecimalValue(shown);
    DecimalValue(count);
  }

  /** Two runs of digits around a slash read back as their values. */
  lemma LabelParts(a: string, b: string)
    requires AllDigits(a) && AllDigits(b)
    ensures ParseLabel(a + "/" + b) == Some((DigitsValue(a), DigitsValue(b)))
  {
    var s := a + "/" + b;
    assert SlashAt(s) == Some(|a|) by {
      assert s[|a|] == '/';
      assert forall k :: 0 <= k < |a| ==> s[k] == a[k];
    }
    assert s[..|a|] == a;
    assert s[|a| + 1..] == b;
  }

  /** With no match the label is empty. */
  lemma CountLabelEmpty(cur: int)
    ensures CountLabel(0, cur) == ""
  {
  }
}
