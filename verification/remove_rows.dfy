/** `removeRow`: target resolution, the `beforeRowRemove` veto, the
    middle-row path with resync and the tail-pop path. */
module RemoveRows {
  import opened Wrappers
  import opened CellStore
  import opened RowStore

  /** The removal goes ahead when forced, when no `beforeRowRemove` hook is
      configured, or when the hook (abstracted to its answer) agrees. */
  predicate Approved(force: bool, hook: Option<bool>) {
    force || hook.None? || hook.value
  }

  /** The position `removeRow` acts on: the identity's position when it is
      found, else the passed index (`None` selects the tail path). */
  function RemoveTarget(order: seq<nat>, rowIndex: Option<nat>, uniqueIndex: Option<nat>): (t: Option<nat>)
    ensures uniqueIndex.Some? && uniqueIndex.value in order ==>
      t.Some? && t.value < |order| && order[t.value] == uniqueIndex.value
    ensures (uniqueIndex.None? || uniqueIndex.value !in order) ==> t == rowIndex
  {
    if uniqueIndex.Some? then
      match FindRowIndex(order, uniqueIndex.value)
      case Some(z) => Some(z)
      case None => rowIndex
    else rowIndex
  }

  /** Takes the row at position `t` out of the store, together with its label
      cell and its controls. */
  function DropRow(g: Grid, t: nat): (r: Grid)
    requires t < |g.rowOrder|
    ensures r.columns == g.columns && r.hideRowNumColumn == g.hideRowNumColumn && r.counter == g.counter
    ensures r.rowOrder == RemoveAt(g.rowOrder, t)
    ensures r.labels == g.labels - {g.rowOrder[t]}
    ensures forall k :: k in r.cells <==> k in g.cells && k.1 != g.rowOrder[t]
    ensures forall k :: k in r.cells ==> r.cells[k] == g.cells[k]
  {
    var id := g.rowOrder[t];
    g.(rowOrder := RemoveAt(g.rowOrder, t),
       labels := g.labels - {id},
       cells := map k | k in g.cells && k.1 != id :: g.cells[k])
  }

  /** `removeRow(rowIndex, uniqueIndex, force)`. An index past the end leaves
      the state as it is (the source's `splice` removes nothing and the DOM
      removal then throws before any resync); popping an empty grid does
      nothing. The counter is never touched. */
  function RemoveRow(g: Grid, rowIndex: Option<nat>, uniqueIndex: Option<nat>, force: bool, hook: Option<bool>)
    : (r: Grid)
    ensures r.columns == g.columns && r.hideRowNumColumn == g.hideRowNumColumn
    ensures r.counter == g.counter
    ensures !Approved(force, hook) ==> r == g
    ensures |g.rowOrder| == 0 ==> r == g
  {
    var t := RemoveTarget(g.rowOrder, rowIndex, uniqueIndex);
    if !Approved(force, hook) then g
    else if t.Some? then
      if t.value < |g.rowOrder| then SortSequence(DropRow(g, t.value), t.value) else g
    else if |g.rowOrder| == 0 then g
    else DropRow(g, |g.rowOrder| - 1)
  }

  lemma RemoveAtFacts(s: seq<nat>, t: nat)
    requires NoDup(s) && t < |s|
    ensures NoDup(RemoveAt(s, t))
    ensures forall x :: x in RemoveAt(s, t) <==> x in s && x != s[t]
  {
    var r := RemoveAt(s, t);
    forall i, j | 0 <= i < j < |r| ensures r[i] != r[j] {
      if j < t { } else if i < t { assert r[j] == s[j + 1]; }
      else { assert r[i] == s[i + 1] && r[j] == s[j + 1]; }
    }
    forall x ensures x in r <==> x in s && x != s[t] {
      if x in s && x != s[t] {
        var j :| 0 <= j < |s| && s[j] == x;
        if j < t { assert r[j] == x; } else { assert r[j - 1] == x; }
      }
      if x in r {
        var i :| 0 <= i < |r| && r[i] == x;
        if i < t { assert s[i] == x; } else { assert s[i + 1] == x; }
      }
    }
  }

  /** `rowOrder` after `removeRow` on its own: the target position taken out,
      or the last entry on the tail path. */
  function OrderAfterRemove(s: seq<nat>, t: Option<nat>, approved: bool): seq<nat> {
    if !approved then s
    else if t.Some? then (if t.value < |s| then RemoveAt(s, t.value) else s)
    else if |s| == 0 then s
    else RemoveAt(s, |s| - 1)
  }

  lemma RemoveRowOrder(g: Grid, rowIndex: Option<nat>, uniqueIndex: Option<nat>, force: bool, hook: Option<bool>)
    ensures RemoveRow(g, rowIndex, uniqueIndex, force, hook).rowOrder
      == OrderAfterRemove(g.rowOrder, RemoveTarget(g.rowOrder, rowIndex, uniqueIndex), Approved(force, hook))
  {
  }

  /** `removeRow` takes out at most one row and never adds one. */
  lemma RemoveRowShrinks(g: Grid, rowIndex: Option<nat>, uniqueIndex: Option<nat>, force: bool, hook: Option<bool>)
    ensures var r := RemoveRow(g, rowIndex, uniqueIndex, force, hook);
      && (|r.rowOrder| == |g.rowOrder| || |r.rowOrder| + 1 == |g.rowOrder|)
      && multiset(r.rowOrder) <= multiset(g.rowOrder)
  {
    RemoveRowOrder(g, rowIndex, uniqueIndex, force, hook);
  }

  lemma DropRowOrder(g: Grid, t: nat)
    requires NoDup(g.rowOrder) && Bounded(g) && t < |g.rowOrder|
    ensures NoDup(DropRow(g, t).rowOrder) && Bounded(DropRow(g, t))
  {
    var r := DropRow(g, t);
    var s := g.rowOrder;
    RemoveAtFacts(s, t);
    forall i | 0 <= i < |r.rowOrder| ensures 1 <= r.rowOrder[i] <= r.counter {
      if i >= t { assert r.rowOrder[i] == s[i + 1]; } else { assert r.rowOrder[i] == s[i]; }
    }
  }

  lemma DropRowLive(g: Grid, t: nat)
    requires NoDup(g.rowOrder) && CellsLive(g) && LabelKeysLive(g) && t < |g.rowOrder|
    ensures CellsLive(DropRow(g, t)) && LabelKeysLive(DropRow(g, t))
  {
    var r := DropRow(g, t);
    var id := g.rowOrder[t];
    RemoveAtFacts(g.rowOrder, t);
    forall k | k in r.cells ensures k.1 in r.rowOrder {
      assert k in g.cells && k.1 != id;
    }
    forall x | x in r.labels ensures x in r.rowOrder {
      assert x in g.labels && x != id;
    }
  }

  lemma DropRowLabels(g: Grid, t: nat)
    requires NoDup(g.rowOrder) && LabelsBelow(g, |g.rowOrder|) && t < |g.rowOrder|
    ensures LabelsBelow(DropRow(g, t), t)
  {
    var r := DropRow(g, t);
    var s := g.rowOrder;
    forall i | 0 <= i < |r.rowOrder| && i < t ensures r.rowOrder[i] in r.labels && r.labels[r.rowOrder[i]] == i + 1 {
      assert r.rowOrder[i] == s[i] && s[i] != s[t];
    }
  }

  /** Dropping a row keeps everything but the labels after it consistent. */
  lemma DropRowKeepsCore(g: Grid, t: nat)
    requires Valid(g) && t < |g.rowOrder|
    ensures var r := DropRow(g, t);
      && NoDup(r.rowOrder) && Bounded(r) && CellsLive(r) && LabelKeysLive(r)
      && (r.hideRowNumColumn ==> r.labels == map[])
      && (!r.hideRowNumColumn ==> LabelsBelow(r, t))
  {
    DropRowOrder(g, t);
    if g.hideRowNumColumn {
      assert LabelKeysLive(g);
    } else {
      DropRowLabels(g, t);
    }
    DropRowLive(g, t);
  }

  lemma RemoveMiddleKeepsValid(g: Grid, t: nat)
    requires Valid(g) && t < |g.rowOrder|
    ensures Valid(SortSequence(DropRow(g, t), t))
  {
    var d := DropRow(g, t);
    DropRowKeepsCore(g, t);
    SortSequenceSyncs(d, t);
    var r := SortSequence(d, t);
    assert Bounded(r) && CellsLive(r);
  }

  lemma RemoveTailKeepsValid(g: Grid)
    requires Valid(g) && |g.rowOrder| > 0
    ensures Valid(DropRow(g, |g.rowOrder| - 1))
  {
    var t := |g.rowOrder| - 1;
    var r := DropRow(g, t);
    DropRowKeepsCore(g, t);
    assert |r.rowOrder| == t;
    assert LabelsSynced(r);
  }

  /** `removeRow` keeps the grid invariant: the middle-row path resyncs the
      labels from the removal point, the tail path needs no resync. */
  lemma RemoveRowKeepsValid(g: Grid, rowIndex: Option<nat>, uniqueIndex: Option<nat>, force: bool, hook: Option<bool>)
    requires Valid(g)
    ensures Valid(RemoveRow(g, rowIndex, uniqueIndex, force, hook))
  {
    var t := RemoveTarget(g.rowOrder, rowIndex, uniqueIndex);
    if Approved(force, hook) {
      if t.Some? && t.value < |g.rowOrder| {
        RemoveMiddleKeepsValid(g, t.value);
      } else if t.None? && |g.rowOrder| > 0 {
        RemoveTailKeepsValid(g);
      }
    }
  }

  /** Removing a live row by identity removes exactly that identity, keeps
      the relative order of the others, drops its controls and keeps every
      other control. */
  lemma RemoveByIdentity(g: Grid, rowIndex: Option<nat>, u: nat, force: bool, hook: Option<bool>)
    requires Valid(g) && u in g.rowOrder && Approved(force, hook)
    ensures var r := RemoveRow(g, rowIndex, Some(u), force, hook);
      && r.rowOrder == Without(g.rowOrder, u)
      && (forall k :: k in r.cells ==> k.1 != u)
      && (forall k :: k in g.cells && k.1 != u ==> k in r.cells && r.cells[k] == g.cells[k])
  {
    var t := RemoveTarget(g.rowOrder, rowIndex, Some(u)).value;
    RemoveAtIsWithout(g.rowOrder, t);
  }

  /** Removing by an index in range (with no identity given) removes the
      identity at that index and its controls, and keeps every other
      control. */
  lemma RemoveByIndex(g: Grid, t: nat, force: bool, hook: Option<bool>)
    requires Valid(g) && t < |g.rowOrder| && Approved(force, hook)
    ensures RemoveRow(g, Some(t), None, force, hook).rowOrder == Without(g.rowOrder, g.rowOrder[t])
    ensures var r := RemoveRow(g, Some(t), None, force, hook);
      && (forall k :: k in r.cells ==> k.1 != g.rowOrder[t])
      && (forall k :: k in g.cells && k.1 != g.rowOrder[t] ==> k in r.cells && r.cells[k] == g.cells[k])
  {
    RemoveAtIsWithout(g.rowOrder, t);
  }

  /** With no index given and no identity, or an identity that is not
      found, an approved removal takes the tail path: the last row leaves
      `rowOrder` with its label and its controls, and every other control
      stays as it was. */
  lemma RemoveTailPops(g: Grid, uniqueIndex: Option<nat>, force: bool, hook: Option<bool>)
    requires uniqueIndex.None? || uniqueIndex.value !in g.rowOrder
    requires |g.rowOrder| > 0 && Approved(force, hook)
    ensures var r := RemoveRow(g, None, uniqueIndex, force, hook);
      var last := g.rowOrder[|g.rowOrder| - 1];
      && r.rowOrder == g.rowOrder[..|g.rowOrder| - 1]
      && last !in r.labels
      && (forall k :: k in r.cells ==> k.1 != last)
      && (forall k :: k in g.cells && k.1 != last ==> k in r.cells && r.cells[k] == g.cells[k])
  {
    var t := |g.rowOrder| - 1;
    assert RemoveTarget(g.rowOrder, None, uniqueIndex).None?;
    assert RemoveRow(g, None, uniqueIndex, force, hook) == DropRow(g, t);
    assert RemoveAt(g.rowOrder, t) == g.rowOrder[..t];
  }

  /** Dropping a row leaves every remaining row with all its controls. */
  lemma DropRowKeepsComplete(g: Grid, t: nat)
    requires NoDup(g.rowOrder) && t < |g.rowOrder| && CellsComplete(g)
    ensures CellsComplete(DropRow(g, t))
  {
    var r := DropRow(g, t);
    RemoveAtFacts(g.rowOrder, t);
    forall x, n | x in r.rowOrder && n in ControlNames(r.columns) ensures (n, x) in r.cells {
      assert (n, x) in g.cells;
    }
  }

  /** `removeRow` keeps every live row supplied with its controls. */
  lemma RemoveRowKeepsComplete(g: Grid, rowIndex: Option<nat>, uniqueIndex: Option<nat>, force: bool, hook: Option<bool>)
    requires NoDup(g.rowOrder) && CellsComplete(g)
    ensures CellsComplete(RemoveRow(g, rowIndex, uniqueIndex, force, hook))
  {
    var t := RemoveTarget(g.rowOrder, rowIndex, uniqueIndex);
    if Approved(force, hook) {
      if t.Some? && t.value < |g.rowOrder| {
        DropRowKeepsComplete(g, t.value);
      } else if t.None? && |g.rowOrder| > 0 {
        DropRowKeepsComplete(g, |g.rowOrder| - 1);
      }
    }
  }
}
