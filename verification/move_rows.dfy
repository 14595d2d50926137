/** `moveUpRow` / `moveDownRow`: swap a row with its neighbour and exchange
    the two rank labels. */
module MoveRows {
  import opened Wrappers
  import opened CellStore
  import opened RowStore

  /** `s` with the entries at k and k+1 exchanged. */
  function Swap(s: seq<nat>, k: nat): (r: seq<nat>)
    requires k + 1 < |s|
    ensures |r| == |s|
    ensures r[k] == s[k + 1] && r[k + 1] == s[k]
    ensures forall i :: 0 <= i < |s| && i != k && i != k + 1 ==> r[i] == s[i]
  {
    s[k := s[k + 1]][k + 1 := s[k]]
  }

  /** A swap permutes: same multiset, same members, and no duplicate appears. */
  lemma SwapPermutes(s: seq<nat>, k: nat)
    requires k + 1 < |s|
    ensures multiset(Swap(s, k)) == multiset(s)
    ensures forall x :: x in Swap(s, k) <==> x in s
    ensures NoDup(s) ==> NoDup(Swap(s, k))
  {
    var r := Swap(s, k);
    assert r == s[..k] + [s[k + 1], s[k]] + s[k + 2..];
    assert s == s[..k] + [s[k], s[k + 1]] + s[k + 2..];
    forall x ensures x in r <==> x in s {
      assert x in r <==> multiset(r)[x] > 0;
      assert x in s <==> multiset(s)[x] > 0;
    }
  }

  /** Swapping the same neighbours twice gives back the sequence. */
  lemma SwapTwice(s: seq<nat>, k: nat)
    requires k + 1 < |s|
    ensures Swap(Swap(s, k), k) == s
  {
  }

  /** The label map with the labels of `a` and `b` exchanged, when both have one. */
  function SwapLabels(labels: map<nat, nat>, a: nat, b: nat): (r: map<nat, nat>)
    ensures r.Keys == labels.Keys
    ensures a in labels && b in labels ==> r[a] == labels[b] && r[b] == labels[a]
    ensures forall x :: x in labels && x != a && x != b ==> r[x] == labels[x]
  {
    if a in labels && b in labels then labels[a := labels[b]][b := labels[a]] else labels
  }

  /** Exchanging two distinct labels twice restores the map. */
  lemma SwapLabelsTwice(labels: map<nat, nat>, a: nat, b: nat)
    requires a != b
    ensures SwapLabels(SwapLabels(labels, a, b), b, a) == labels
  {
  }

  /** Exchanges the rows at positions k and k+1 and, when both carry a label
      cell, their labels. (With the row-number column hidden there are no
      label cells; the source then fails on the missing cell after `rowOrder`
      was already updated, which is the state kept here.) */
  function SwapAdjacent(g: Grid, k: nat): (r: Grid)
    requires k + 1 < |g.rowOrder|
    ensures r.columns == g.columns && r.hideRowNumColumn == g.hideRowNumColumn
    ensures r.counter == g.counter && r.cells == g.cells
    ensures r.rowOrder == Swap(g.rowOrder, k)
    ensures r.labels == SwapLabels(g.labels, g.rowOrder[k], g.rowOrder[k + 1])
  {
    g.(rowOrder := Swap(g.rowOrder, k), labels := SwapLabels(g.labels, g.rowOrder[k], g.rowOrder[k + 1]))
  }

  /** The row `moveUpRow` acts on: an index that is neither first nor past
      the end, otherwise the identity's position, otherwise none. */
  function MoveUpSource(order: seq<nat>, rowIndex: Option<nat>, uniqueIndex: Option<nat>): Option<nat> {
    if rowIndex.Some? && rowIndex.value > 0 && rowIndex.value < |order| then rowIndex
    else if uniqueIndex.Some? then FindRowIndex(order, uniqueIndex.value)
    else None
  }

  /** The row `moveDownRow` acts on: an index that is not last, otherwise the
      identity's position, otherwise none. */
  function MoveDownSource(order: seq<nat>, rowIndex: Option<nat>, uniqueIndex: Option<nat>): Option<nat> {
    if rowIndex.Some? && rowIndex.value + 1 < |order| then rowIndex
    else if uniqueIndex.Some? then FindRowIndex(order, uniqueIndex.value)
    else None
  }

  /** `moveUpRow(rowIndex, uniqueIndex)`: a permutation of `rowOrder` that
      leaves the counter and the controls alone. */
  function MoveUpRow(g: Grid, rowIndex: Option<nat>, uniqueIndex: Option<nat>): (r: Grid)
    ensures r.columns == g.columns && r.hideRowNumColumn == g.hideRowNumColumn
    ensures r.counter == g.counter && r.cells == g.cells
    ensures multiset(r.rowOrder) == multiset(g.rowOrder)
  {
    var src := MoveUpSource(g.rowOrder, rowIndex, uniqueIndex);
    if src.Some? && src.value > 0 then
      SwapPermutes(g.rowOrder, src.value - 1);
      SwapAdjacent(g, src.value - 1)
    else g
  }

  /** `moveDownRow(rowIndex, uniqueIndex)`: a permutation of `rowOrder` that
      leaves the counter and the controls alone. */
  function MoveDownRow(g: Grid, rowIndex: Option<nat>, uniqueIndex: Option<nat>): (r: Grid)
    ensures r.columns == g.columns && r.hideRowNumColumn == g.hideRowNumColumn
    ensures r.counter == g.counter && r.cells == g.cells
    ensures multiset(r.rowOrder) == multiset(g.rowOrder)
  {
    var src := MoveDownSource(g.rowOrder, rowIndex, uniqueIndex);
    if src.Some? && src.value != |g.rowOrder| - 1 then
      SwapPermutes(g.rowOrder, src.value);
      SwapAdjacent(g, src.value)
    else g
  }

  /** A swap of neighbours keeps the grid invariant: the two labels trade
      places along with their rows. */
  lemma SwapKeepsValid(g: Grid, k: nat)
    requires Valid(g) && k + 1 < |g.rowOrder|
    ensures Valid(SwapAdjacent(g, k))
  {
    var r := SwapAdjacent(g, k);
    SwapPermutes(g.rowOrder, k);
    assert Bounded(r) by {
      forall i | 0 <= i < |r.rowOrder| ensures 1 <= r.rowOrder[i] <= r.counter {
        assert r.rowOrder[i] in g.rowOrder;
      }
    }
    assert CellsLive(r) by {
      forall c | c in r.cells ensures c.1 in r.rowOrder {
        assert c.1 in g.rowOrder;
      }
    }
    if !g.hideRowNumColumn {
      assert LabelsBelow(r, |r.rowOrder|) by {
        forall i | 0 <= i < |r.rowOrder|
          ensures r.rowOrder[i] in r.labels && r.labels[r.rowOrder[i]] == i + 1
        {
          if i != k && i != k + 1 {
            assert g.rowOrder[i] != g.rowOrder[k] && g.rowOrder[i] != g.rowOrder[k + 1];
          }
        }
      }
      assert LabelKeysLive(r);
    }
  }

  /** Moving up swaps the row with the one above it and changes nothing
      else; the two rows trade labels. */
  lemma MoveUpSwaps(g: Grid, u: nat)
    requires Valid(g) && u in g.rowOrder
    ensures var k := FindRowIndex(g.rowOrder, u).value;
      var r := MoveUpRow(g, None, Some(u));
      && (k == 0 ==> r == g)
      && (k > 0 ==>
        && r.rowOrder[k - 1] == u && r.rowOrder[k] == g.rowOrder[k - 1]
        && (forall i :: 0 <= i < |g.rowOrder| && i != k - 1 && i != k ==> r.rowOrder[i] == g.rowOrder[i])
        && (!g.hideRowNumColumn ==> r.labels[u] == k && r.labels[g.rowOrder[k - 1]] == k + 1))
  {
    var s := g.rowOrder;
    var k := FindRowIndex(s, u).value;
    if k > 0 {
      assert MoveUpSource(s, None, Some(u)) == Some(k);
      assert MoveUpRow(g, None, Some(u)) == SwapAdjacent(g, k - 1);
      if !g.hideRowNumColumn {
        assert LabelsBelow(g, |s|);
        assert s[k - 1] in g.labels && g.labels[s[k - 1]] == k;
        assert s[k] in g.labels && g.labels[s[k]] == k + 1;
      }
    }
  }

  /** Moving down swaps the row with the one below it and changes nothing
      else; the two rows trade labels. */
  lemma MoveDownSwaps(g: Grid, u: nat)
    requires Valid(g) && u in g.rowOrder
    ensures var k := FindRowIndex(g.rowOrder, u).value;
      var r := MoveDownRow(g, None, Some(u));
      && (k == |g.rowOrder| - 1 ==> r == g)
      && (k + 1 < |g.rowOrder| ==>
        && r.rowOrder[k + 1] == u && r.rowOrder[k] == g.rowOrder[k + 1]
        && (forall i :: 0 <= i < |g.rowOrder| && i != k && i != k + 1 ==> r.rowOrder[i] == g.rowOrder[i])
        && (!g.hideRowNumColumn ==> r.labels[u] == k + 2 && r.labels[g.rowOrder[k + 1]] == k + 1))
  {
    var s := g.rowOrder;
    var k := FindRowIndex(s, u).value;
    if k + 1 < |s| {
      assert MoveDownSource(s, None, Some(u)) == Some(k);
      assert MoveDownRow(g, None, Some(u)) == SwapAdjacent(g, k);
      if !g.hideRowNumColumn {
        assert LabelsBelow(g, |s|);
        assert s[k] in g.labels && g.labels[s[k]] == k + 1;
        assert s[k + 1] in g.labels && g.labels[s[k + 1]] == k + 2;
      }
    }
  }

  /** Moving up by an index other than the first exchanges that row with
      the one above it, whatever identity is passed alongside. */
  lemma MoveUpByIndex(g: Grid, k: nat, uniqueIndex: Option<nat>)
    requires 0 < k < |g.rowOrder|
    ensures MoveUpRow(g, Some(k), uniqueIndex) == SwapAdjacent(g, k - 1)
  {
    assert MoveUpSource(g.rowOrder, Some(k), uniqueIndex) == Some(k);
  }

  /** Moving down by an index other than the last exchanges that row with
      the one below it, whatever identity is passed alongside. */
  lemma MoveDownByIndex(g: Grid, k: nat, uniqueIndex: Option<nat>)
    requires k + 1 < |g.rowOrder|
    ensures MoveDownRow(g, Some(k), uniqueIndex) == SwapAdjacent(g, k)
  {
    assert MoveDownSource(g.rowOrder, Some(k), uniqueIndex) == Some(k);
  }

  /** Neither move does anything when the index is unusable for that
      direction (absent, first for an up-move, last or beyond for a
      down-move) and the identity is absent or not in the grid. */
  lemma MoveUnknownIsNoop(g: Grid, rowIndex: Option<nat>, uniqueIndex: Option<nat>)
    requires uniqueIndex.None? || uniqueIndex.value !in g.rowOrder
    ensures rowIndex.None? || rowIndex.value == 0 || rowIndex.value >= |g.rowOrder| ==>
      MoveUpRow(g, rowIndex, uniqueIndex) == g
    ensures rowIndex.None? || rowIndex.value + 1 >= |g.rowOrder| ==>
      MoveDownRow(g, rowIndex, uniqueIndex) == g
  {
  }

  /** `moveUpRow` keeps the grid invariant. */
  lemma MoveUpKeepsValid(g: Grid, rowIndex: Option<nat>, uniqueIndex: Option<nat>)
    requires Valid(g)
    ensures Valid(MoveUpRow(g, rowIndex, uniqueIndex))
  {
    var src := MoveUpSource(g.rowOrder, rowIndex, uniqueIndex);
    if src.Some? && src.value > 0 {
      SwapKeepsValid(g, src.value - 1);
    }
  }

  /** `moveDownRow` keeps the grid invariant. */
  lemma MoveDownKeepsValid(g: Grid, rowIndex: Option<nat>, uniqueIndex: Option<nat>)
    requires Valid(g)
    ensures Valid(MoveDownRow(g, rowIndex, uniqueIndex))
  {
    var src := MoveDownSource(g.rowOrder, rowIndex, uniqueIndex);
    if src.Some? && src.value != |g.rowOrder| - 1 {
      SwapKeepsValid(g, src.value);
    }
  }

  /** Moving a row other than the last down and then up again restores the
      grid exactly. (The last row does not move down, and then moves up.) */
  lemma MoveDownThenUpRestores(g: Grid, u: nat)
    requires NoDup(g.rowOrder) && u in g.rowOrder && u != g.rowOrder[|g.rowOrder| - 1]
    ensures MoveUpRow(MoveDownRow(g, None, Some(u)), None, Some(u)) == g
  {
    var s := g.rowOrder;
    var k := FindRowIndex(s, u).value;
    assert s[k] == u && k + 1 < |s|;
    var g1 := SwapAdjacent(g, k);
    assert MoveDownRow(g, None, Some(u)) == g1;
    SwapPermutes(s, k);
    FindInNoDup(g1.rowOrder, k + 1);
    assert MoveUpRow(g1, None, Some(u)) == SwapAdjacent(g1, k);
    SwapTwice(s, k);
    SwapLabelsTwice(g.labels, s[k], s[k + 1]);
  }

  /** A grid whose rows are a permutation of another's, with the same
      columns and controls, is complete when the other is. */
  lemma PermutedKeepsComplete(g: Grid, r: Grid)
    requires CellsComplete(g)
    requires r.columns == g.columns && r.cells == g.cells && multiset(r.rowOrder) == multiset(g.rowOrder)
    ensures CellsComplete(r)
  {
    forall x, n | x in r.rowOrder && n in ControlNames(r.columns) ensures (n, x) in r.cells {
      assert multiset(r.rowOrder)[x] > 0;
      assert x in g.rowOrder;
    }
  }

  /** Both moves keep every live row supplied with its controls. */
  lemma MoveKeepsComplete(g: Grid, rowIndex: Option<nat>, uniqueIndex: Option<nat>)
    requires CellsComplete(g)
    ensures CellsComplete(MoveUpRow(g, rowIndex, uniqueIndex))
    ensures CellsComplete(MoveDownRow(g, rowIndex, uniqueIndex))
  {
    PermutedKeepsComplete(g, MoveUpRow(g, rowIndex, uniqueIndex));
    PermutedKeepsComplete(g, MoveDownRow(g, rowIndex, uniqueIndex));
  }
}
