/** The row store: the grid state, the ordered sequence of row identities,
    the rank labels, and the sequence sync (`sortSequence`). */
module RowStore {
  import opened Wrappers
  import opened CellStore

  /** A grid instance. `columns` and `hideRowNumColumn` are configuration;
      `counter` is `uniqueIndex`, the last identity handed out; `rowOrder`
      lists row identities in display order; `labels` maps an identity to the
      text of its `_RowNum_` cell; `cells` holds the controls. */
  datatype Grid = Grid(
    columns: seq<Column>,
    hideRowNumColumn: bool,
    counter: nat,
    rowOrder: seq<nat>,
    labels: map<nat, nat>,
    cells: Cells)

  predicate NoDup(s: seq<nat>) {
    forall i, j :: 0 <= i < j < |s| ==> s[i] != s[j]
  }

  /** lo, lo+1, ..., lo+n-1 */
  function Span(lo: nat, n: nat): (r: seq<nat>)
    ensures |r| == n
    ensures forall i :: 0 <= i < n ==> r[i] == lo + i
    decreases n
  {
    if n == 0 then [] else [lo] + Span(lo + 1, n - 1)
  }

  /** lo+n-1, ..., lo+1, lo: the same identities, newest first. */
  function DescSpan(lo: nat, n: nat): (r: seq<nat>)
    ensures |r| == n
    ensures forall i :: 0 <= i < n ==> r[i] == lo + n - 1 - i
    decreases n
  {
    if n == 0 then [] else DescSpan(lo + 1, n - 1) + [lo]
  }

  lemma SpanMembers(lo: nat, n: nat, x: nat)
    requires x in Span(lo, n)
    ensures lo <= x < lo + n
  {
  }

  function Min(a: nat, b: nat): nat {
    if a < b then a else b
  }

  /** JavaScript's `s.splice(p, 0, x)`: a start beyond the end is clamped. */
  function InsertAt(s: seq<nat>, p: nat, x: nat): (r: seq<nat>)
    ensures |r| == |s| + 1
  {
    var q := Min(p, |s|);
    s[..q] + [x] + s[q..]
  }

  /** `InsertAt` adds exactly `x`, at the clamped position, and shifts the
      tail by one. */
  lemma InsertAtFacts(s: seq<nat>, p: nat, x: nat)
    ensures multiset(InsertAt(s, p, x)) == multiset(s) + multiset{x}
    ensures forall i :: 0 <= i < |s| + 1 ==>
      InsertAt(s, p, x)[i] == (if i < Min(p, |s|) then s[i] else if i == Min(p, |s|) then x else s[i - 1])
  {
    var q := Min(p, |s|);
    assert s == s[..q] + s[q..];
  }

  /** `s.splice(t, 1)` for a position in range. */
  function RemoveAt(s: seq<nat>, t: nat): (r: seq<nat>)
    requires t < |s|
    ensures |r| == |s| - 1
    ensures multiset(r) == multiset(s) - multiset{s[t]}
    ensures forall i :: 0 <= i < |r| ==> r[i] == (if i < t then s[i] else s[i + 1])
  {
    assert s == s[..t] + [s[t]] + s[t + 1..];
    s[..t] + s[t + 1..]
  }

  /** Reference definition of "the sequence without identity `u`". */
  function Without(s: seq<nat>, u: nat): (r: seq<nat>)
    ensures u !in r
    ensures forall x :: x in r <==> x in s && x != u
  {
    if s == [] then [] else (if s[0] == u then [] else [s[0]]) + Without(s[1..], u)
  }

  /** Removing the entry at position `t` of a duplicate-free sequence is
      removing its identity. */
  lemma {:induction false} RemoveAtIsWithout(s: seq<nat>, t: nat)
    requires NoDup(s) && t < |s|
    ensures RemoveAt(s, t) == Without(s, s[t])
    decreases |s|
  {
    if t == 0 {
      assert s[1..] == RemoveAt(s, 0);
      assert s[0] !in s[1..];
      WithoutAbsent(s[1..], s[0]);
    } else {
      assert NoDup(s[1..]);
      assert s[1..][t - 1] == s[t];
      RemoveAtIsWithout(s[1..], t - 1);
      assert RemoveAt(s, t) == [s[0]] + RemoveAt(s[1..], t - 1);
    }
  }

  lemma {:induction false} WithoutAbsent(s: seq<nat>, u: nat)
    requires u !in s
    ensures Without(s, u) == s
    decreases |s|
  {
    if s != [] {
      WithoutAbsent(s[1..], u);
      assert s == [s[0]] + s[1..];
    }
  }

  /** `findRowIndex`: the first position holding `u`, or `null`. */
  function FindRowIndex(s: seq<nat>, u: nat): (r: Option<nat>)
    ensures r.Some? ==> r.value < |s| && s[r.value] == u && u !in s[..r.value]
    ensures r.None? <==> u !in s
  {
    if s == [] then None
    else if s[0] == u then Some(0)
    else
      match FindRowIndex(s[1..], u)
      case None => None
      case Some(k) =>
        assert s[..k + 1] == [s[0]] + s[1..][..k];
        Some(k + 1)
  }

  /** In a duplicate-free sequence the position of an entry is its own. */
  lemma FindInNoDup(s: seq<nat>, k: nat)
    requires NoDup(s) && k < |s|
    ensures FindRowIndex(s, s[k]) == Some(k)
  {
  }

  /** Every identity in `rowOrder` was handed out by the counter. */
  ghost predicate Bounded(g: Grid) {
    forall i :: 0 <= i < |g.rowOrder| ==> 1 <= g.rowOrder[i] <= g.counter
  }

  /** Controls exist only for live rows. */
  ghost predicate CellsLive(g: Grid) {
    forall k :: k in g.cells ==> k.1 in g.rowOrder
  }

  /** Labels exist only for live rows. */
  ghost predicate LabelKeysLive(g: Grid) {
    forall id :: id in g.labels ==> id in g.rowOrder
  }

  /** The rows at positions below `b` carry their 1-based rank as label. */
  ghost predicate LabelsBelow(g: Grid, b: nat) {
    forall i :: 0 <= i < |g.rowOrder| && i < b ==>
      g.rowOrder[i] in g.labels && g.labels[g.rowOrder[i]] == i + 1
  }

  /** `label[rowOrder[i]] == i + 1` for every row, and no stray labels; no
      label cells at all when the row-number column is hidden. */
  ghost predicate LabelsSynced(g: Grid) {
    if g.hideRowNumColumn then g.labels == map[]
    else LabelsBelow(g, |g.rowOrder|) && LabelKeysLive(g)
  }

  /** Every live row owns a control for each non-custom column. */
  ghost predicate CellsComplete(g: Grid) {
    forall id, n :: id in g.rowOrder && n in ControlNames(g.columns) ==> (n, id) in g.cells
  }

  /** The grid invariant. */
  ghost predicate Valid(g: Grid) {
    && NoDup(g.rowOrder)
    && Bounded(g)
    && CellsLive(g)
    && LabelsSynced(g)
  }

  /** The label map after `label[s[i]] := i + 1` for every i from `z` on. */
  function Relabel(labels: map<nat, nat>, s: seq<nat>, z: nat): (r: map<nat, nat>)
    decreases |s| - z
  {
    if z >= |s| then labels else Relabel(labels[s[z] := z + 1], s, z + 1)
  }

  /** Relabelling adds keys only for the rows from `z` on, leaves every other
      label alone and, in a duplicate-free sequence, gives each such row its
      1-based rank. */
  lemma {:induction false} RelabelFacts(labels: map<nat, nat>, s: seq<nat>, z: nat)
    ensures Relabel(labels, s, z).Keys == labels.Keys + (set i | z <= i < |s| :: s[i])
    ensures forall k :: k in labels && (forall i :: z <= i < |s| ==> s[i] != k) ==> Relabel(labels, s, z)[k] == labels[k]
    ensures NoDup(s) ==> forall i :: z <= i < |s| ==> Relabel(labels, s, z)[s[i]] == i + 1
    decreases |s| - z
  {
    if z < |s| {
      RelabelFacts(labels[s[z] := z + 1], s, z + 1);
      assert (set i | z <= i < |s| :: s[i]) == {s[z]} + (set i | z + 1 <= i < |s| :: s[i]);
    }
  }

  /** `sortSequence(start)`: only labels change, and nothing at all when the
      row-number column is hidden. */
  function SortSequence(g: Grid, start: nat): (r: Grid)
    ensures r.columns == g.columns && r.hideRowNumColumn == g.hideRowNumColumn
    ensures r.counter == g.counter && r.rowOrder == g.rowOrder && r.cells == g.cells
    ensures g.hideRowNumColumn ==> r == g
  {
    if g.hideRowNumColumn then g else g.(labels := Relabel(g.labels, g.rowOrder, start))
  }

  /** `sortSequence(start)` gives every row at position `z >= start` the label
      `z + 1`, keeps the labels of earlier rows, and adds labels only for
      rows of the grid. */
  lemma SortSequenceLabels(g: Grid, start: nat)
    ensures var r := SortSequence(g, start);
      && (!g.hideRowNumColumn && NoDup(g.rowOrder) ==>
        forall i :: start <= i < |g.rowOrder| ==> g.rowOrder[i] in r.labels && r.labels[g.rowOrder[i]] == i + 1)
      && (NoDup(g.rowOrder) ==>
        forall i :: 0 <= i < |g.rowOrder| && i < start && g.rowOrder[i] in g.labels ==>
          g.rowOrder[i] in r.labels && r.labels[g.rowOrder[i]] == g.labels[g.rowOrder[i]])
      && (forall id :: id in r.labels ==> id in g.labels || id in g.rowOrder)
  {
    if !g.hideRowNumColumn {
      RelabelFacts(g.labels, g.rowOrder, start);
    }
  }

  /** Resyncing from `start` restores the label invariant when the rows above
      `start` are already labelled correctly. */
  lemma SortSequenceSyncs(g: Grid, start: nat)
    requires NoDup(g.rowOrder) && LabelKeysLive(g)
    requires g.hideRowNumColumn ==> g.labels == map[]
    requires !g.hideRowNumColumn ==> LabelsBelow(g, start)
    ensures LabelsSynced(SortSequence(g, start))
  {
    var r := SortSequence(g, start);
    SortSequenceLabels(g, start);
    if !g.hideRowNumColumn {
      forall i | 0 <= i < |r.rowOrder| ensures r.rowOrder[i] in r.labels && r.labels[r.rowOrder[i]] == i + 1 {
        if i < start {
          assert g.rowOrder[i] in g.labels;
        }
      }
    }
  }
}
