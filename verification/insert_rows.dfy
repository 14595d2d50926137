/** `insertRow`: anchor resolution, identity allocation, control population
    and the resync after a positional insert. */
module InsertRows {
  import opened Wrappers
  import opened CellStore
  import opened RowStore

  /** The first argument of `insertRow`: a row count, or an array of records. */
  datatype Payload = Count(n: nat) | Records(rows: seq<Record>)

  /** The resolved insert position (`null` = append) and `parentIndex`. */
  datatype Anchor = Anchor(at: Option<nat>, parent: Option<int>)

  /** The new grid together with the object `insertRow` returns. */
  datatype Inserted = Inserted(grid: Grid, addedRows: seq<nat>, parentIndex: Option<int>, rowIndex: Option<nat>)

  function Size(p: Payload): nat {
    match p
    case Count(n) => n
    case Records(rows) => |rows|
  }

  /** One source per new row: blanks for a count, the records in order. */
  function Sources(p: Payload): (r: seq<RowSource>)
    ensures |r| == Size(p)
  {
    match p
    case Count(n) => Blanks(n)
    case Records(rows) => FromRecords(rows)
  }

  function Blanks(n: nat): (r: seq<RowSource>)
    ensures |r| == n
  {
    if n == 0 then [] else [Blank] + Blanks(n - 1)
  }

  function FromRecords(rows: seq<Record>): (r: seq<RowSource>)
    ensures |r| == |rows|
  {
    if rows == [] then [] else [FromRecord(rows[0])] + FromRecords(rows[1..])
  }

  lemma {:induction false} FromRecordsAt(rows: seq<Record>, j: nat)
    requires j < |rows|
    ensures FromRecords(rows)[j] == FromRecord(rows[j])
  {
    if j > 0 {
      FromRecordsAt(rows[1..], j - 1);
    }
  }

  /** Resolution of the parent row: a caller identity that is found wins and
      inserts before it; a caller identity that is not found keeps the passed
      `rowIndex`; a numeric index at or past the end appends; an index inside
      the grid inserts there; no anchor appends after the last row. */
  function ResolveAnchor(order: seq<nat>, rowIndex: Option<nat>, caller: Option<nat>): (a: Anchor)
    ensures caller.Some? && caller.value in order ==>
      && a.at.Some? && a.at.value < |order| && order[a.at.value] == caller.value
      && caller.value !in order[..a.at.value]
      && a.parent == (if a.at.value == 0 then None else Some(a.at.value - 1))
    ensures caller.Some? && caller.value !in order ==> a == Anchor(rowIndex, None)
    ensures caller.None? && rowIndex.Some? && rowIndex.value >= |order| ==> a == Anchor(None, None)
    ensures caller.None? && rowIndex.Some? && rowIndex.value < |order| ==>
      a == Anchor(rowIndex, Some(rowIndex.value - 1))
    ensures caller.None? && rowIndex.None? ==>
      a == Anchor(None, if |order| == 0 then None else Some(|order| - 1))
  {
    if caller.Some? then
      match FindRowIndex(order, caller.value)
      case Some(z) => Anchor(Some(z), if z != 0 then Some(z - 1) else None)
      case None => Anchor(rowIndex, None)
    else if rowIndex.Some? then
      if rowIndex.value >= |order| then Anchor(None, None) else Anchor(rowIndex, Some(rowIndex.value - 1))
    else if |order| != 0 then Anchor(None, Some(|order| - 1))
    else Anchor(None, None)
  }

  /** `rowOrder` after one iteration: `splice(at, 0, id)` or `push(id)`. */
  function NextOrder(s: seq<nat>, at: Option<nat>, id: nat): seq<nat> {
    if at.Some? then InsertAt(s, at.value, id) else s + [id]
  }

  /** The ordering part of one iteration of the insert loop: allocate the
      next identity, splice it in at `at` (or push it) and give it the label
      `rowOrder.length`. Returns the grid and the index pushed on `addedRows`. */
  function AddRow(g: Grid, at: Option<nat>): (r: (Grid, nat))
  {
    var id := g.counter + 1;
    var order := NextOrder(g.rowOrder, at, id);
    (g.(counter := id, rowOrder := order,
        labels := if g.hideRowNumColumn then g.labels else g.labels[id := |order|]),
     if at.Some? then at.value else |order| - 1)
  }

  /** The insert loop's ordering part, `n` times. The position `at` is never
      advanced, so consecutive positional rows each land in front of the
      previous one. */
  function InsertMany(g: Grid, at: Option<nat>, n: nat): (r: (Grid, seq<nat>))
    ensures r.0.columns == g.columns && r.0.hideRowNumColumn == g.hideRowNumColumn
    ensures r.0.cells == g.cells
    ensures r.0.counter == g.counter + n
    ensures |r.1| == n
    decreases n
  {
    if n == 0 then (g, [])
    else
      var (g1, a) := AddRow(g, at);
      var (g2, rest) := InsertMany(g1, at, n - 1);
      (g2, [a] + rest)
  }

  /** Populates the controls of rows `ids[r]` from `srcs[r]`, row by row. */
  function WriteRows(cells: Cells, cols: seq<Column>, ids: seq<nat>, srcs: seq<RowSource>): Cells
    requires |ids| == |srcs|
    decreases |ids|
  {
    if |ids| == 0 then cells
    else WriteRows(WriteColumns(cells, cols, ids[0], srcs[0]), cols, ids[1..], srcs[1..])
  }

  /** `insertRow(numOfRowOrRowArray, rowIndex, callerUniqueIndex)`. The
      controls of the new rows are populated after the ordering loop rather
      than inside it: each row's controls depend only on its identity and its
      source, and every write touches only that row's keys, so the final
      store is the same. */
  function InsertRow(g: Grid, payload: Payload, rowIndex: Option<nat>, caller: Option<nat>): (r: Inserted)
    ensures r.grid.columns == g.columns && r.grid.hideRowNumColumn == g.hideRowNumColumn
    ensures r.grid.counter == g.counter + Size(payload)
    ensures |r.addedRows| == Size(payload)
  {
    var a := ResolveAnchor(g.rowOrder, rowIndex, caller);
    var g0 := if |g.rowOrder| == 0 then g.(labels := map[], cells := map[]) else g;
    var (g3, added) := Stages(g0, a.at, Size(payload), g.columns, Sources(payload));
    Inserted(g3, added, a.parent, a.at)
  }

  /** What follows the anchor: the allocation loop, the population pass
      over the new identities and, for a positional insert, the resync of
      the labels. */
  function Stages(g0: Grid, at: Option<nat>, n: nat, cols: seq<Column>, srcs: seq<RowSource>): (r: (Grid, seq<nat>))
    requires |srcs| == n
  {
    var (g1, added) := InsertMany(g0, at, n);
    var g2 := g1.(cells := WriteRows(g1.cells, cols, Span(g0.counter + 1, n), srcs));
    (if at.Some? then SortSequence(g2, at.value) else g2, added)
  }

  /** `rowOrder` after `n` iterations starting from counter `c`. */
  function OrderAfter(s: seq<nat>, at: Option<nat>, c: nat, n: nat): seq<nat>
    decreases n
  {
    if n == 0 then s else OrderAfter(NextOrder(s, at, c + 1), at, c + 1, n - 1)
  }

  /** `addedRows` after `n` iterations starting from length `len`. */
  function AddedAfter(len: nat, at: Option<nat>, n: nat): seq<nat>
    decreases n
  {
    if n == 0 then [] else [if at.Some? then at.value else len] + AddedAfter(len + 1, at, n - 1)
  }

  /** One iteration as seen by `rowOrder`, the counter and `addedRows`. */
  lemma AddRowOrder(g: Grid, at: Option<nat>)
    ensures AddRow(g, at).0.rowOrder == NextOrder(g.rowOrder, at, g.counter + 1)
    ensures AddRow(g, at).0.counter == g.counter + 1
    ensures AddRow(g, at).1 == if at.Some? then at.value else |g.rowOrder|
  {
  }

  /** One iteration advances the pure `rowOrder` description by one step. */
  lemma AddRowOrderAfter(g: Grid, at: Option<nat>, m: nat)
    ensures OrderAfter(AddRow(g, at).0.rowOrder, at, g.counter + 1, m) == OrderAfter(g.rowOrder, at, g.counter, m + 1)
  {
    AddRowOrder(g, at);
  }

  /** The loop unrolled once. */
  lemma InsertManyStep(g: Grid, at: Option<nat>, n: nat)
    requires n > 0
    ensures var step := AddRow(g, at);
      && InsertMany(g, at, n).0 == InsertMany(step.0, at, n - 1).0
      && InsertMany(g, at, n).1 == [step.1] + InsertMany(step.0, at, n - 1).1
  {
  }

  lemma {:induction false} InsertManyRowOrder(g: Grid, at: Option<nat>, n: nat)
    ensures InsertMany(g, at, n).0.rowOrder == OrderAfter(g.rowOrder, at, g.counter, n)
    decreases n
  {
    if n > 0 {
      var step := AddRow(g, at);
      InsertManyStep(g, at, n);
      AddRowOrderAfter(g, at, n - 1);
      assert step.0.counter == g.counter + 1 by { AddRowOrder(g, at); }
      InsertManyRowOrder(step.0, at, n - 1);
    }
  }

  lemma {:induction false} InsertManyAdded(g: Grid, at: Option<nat>, n: nat)
    ensures InsertMany(g, at, n).1 == AddedAfter(|g.rowOrder|, at, n)
    decreases n
  {
    if n > 0 {
      var step := AddRow(g, at);
      InsertManyStep(g, at, n);
      AddRowOrder(g, at);
      InsertManyAdded(step.0, at, n - 1);
    }
  }

  lemma NextOrderAdds(s: seq<nat>, at: Option<nat>, id: nat)
    ensures multiset(NextOrder(s, at, id)) == multiset(s) + multiset{id}
  {
    if at.Some? { InsertAtFacts(s, at.value, id); }
  }

  lemma SpanCons(lo: nat, n: nat)
    requires n > 0
    ensures multiset(Span(lo, n)) == multiset{lo} + multiset(Span(lo + 1, n - 1))
  {
    assert Span(lo, n) == [lo] + Span(lo + 1, n - 1);
  }

  lemma {:induction false} OrderAfterAllocates(s: seq<nat>, at: Option<nat>, c: nat, n: nat)
    ensures multiset(OrderAfter(s, at, c, n)) == multiset(s) + multiset(Span(c + 1, n))
    decreases n
  {
    if n > 0 {
      var s1 := NextOrder(s, at, c + 1);
      OrderAfterAllocates(s1, at, c + 1, n - 1);
      NextOrderAdds(s, at, c + 1);
      SpanCons(c + 1, n);
      calc {
        multiset(OrderAfter(s, at, c, n));
        multiset(OrderAfter(s1, at, c + 1, n - 1));
        multiset(s1) + multiset(Span(c + 2, n - 1));
        multiset(s) + multiset{(c + 1) as nat} + multiset(Span(c + 2, n - 1));
        multiset(s) + multiset(Span(c + 1, n));
      }
    }
  }

  /** The grid-level loop reduces to the two pure sequences above. */
  lemma InsertRowOrder(g: Grid, payload: Payload, rowIndex: Option<nat>, caller: Option<nat>)
    ensures var a := ResolveAnchor(g.rowOrder, rowIndex, caller);
      var r := InsertRow(g, payload, rowIndex, caller);
      && r.grid.rowOrder == OrderAfter(g.rowOrder, a.at, g.counter, Size(payload))
      && r.addedRows == AddedAfter(|g.rowOrder|, a.at, Size(payload))
  {
    var a := ResolveAnchor(g.rowOrder, rowIndex, caller);
    var g0 := if |g.rowOrder| == 0 then g.(labels := map[], cells := map[]) else g;
    InsertManyRowOrder(g0, a.at, Size(payload));
    InsertManyAdded(g0, a.at, Size(payload));
  }

  /** Inserting N rows advances the counter by exactly N and adds exactly the
      identities old+1..old+N to `rowOrder`. */
  lemma InsertRowAllocates(g: Grid, payload: Payload, rowIndex: Option<nat>, caller: Option<nat>)
    ensures var r := InsertRow(g, payload, rowIndex, caller).grid;
      && r.counter == g.counter + Size(payload)
      && multiset(r.rowOrder) == multiset(g.rowOrder) + multiset(Span(g.counter + 1, Size(payload)))
  {
    var a := ResolveAnchor(g.rowOrder, rowIndex, caller);
    InsertRowOrder(g, payload, rowIndex, caller);
    OrderAfterAllocates(g.rowOrder, a.at, g.counter, Size(payload));
  }

  // ---------------------------------------------------------------------
  // Invariant preservation

  /** The invariant while the insert loop runs: labels are right for every
      row above the insert position (every row, when appending). */
  ghost predicate Pending(g: Grid, at: Option<nat>) {
    && NoDup(g.rowOrder)
    && Bounded(g)
    && CellsLive(g)
    && LabelKeysLive(g)
    && (g.hideRowNumColumn ==> g.labels == map[])
    && (!g.hideRowNumColumn ==> LabelsBelow(g, if at.Some? then at.value else |g.rowOrder|))
  }

  lemma InsertAtNoDup(s: seq<nat>, p: nat, x: nat)
    requires NoDup(s) && x !in s
    ensures NoDup(InsertAt(s, p, x))
  {
    var r := InsertAt(s, p, x);
    var q := Min(p, |s|);
    InsertAtFacts(s, p, x);
    forall i, j | 0 <= i < j < |r| ensures r[i] != r[j] {
      if j < q {
        assert r[i] == s[i] && r[j] == s[j];
      } else if j == q {
        assert r[i] == s[i];
      } else if i < q {
        assert r[i] == s[i] && r[j] == s[j - 1];
      } else if i == q {
        assert r[j] == s[j - 1];
      } else {
        assert r[i] == s[i - 1] && r[j] == s[j - 1];
      }
    }
  }

  lemma AppendNoDup(s: seq<nat>, x: nat)
    requires NoDup(s) && x !in s
    ensures NoDup(s + [x])
  {
    var r := s + [x];
    forall i, j | 0 <= i < j < |r| ensures r[i] != r[j] {
      if j < |s| { assert r[i] == s[i] && r[j] == s[j]; } else { assert r[i] == s[i]; }
    }
  }

  lemma NextOrderFresh(s: seq<nat>, at: Option<nat>, id: nat)
    requires NoDup(s) && id !in s
    ensures NoDup(NextOrder(s, at, id))
    ensures forall x :: x in NextOrder(s, at, id) <==> x == id || x in s
  {
    var r := NextOrder(s, at, id);
    NextOrderAdds(s, at, id);
    forall x ensures x in r <==> x == id || x in s {
      assert x in r <==> multiset(r)[x] > 0;
      assert x in s <==> multiset(s)[x] > 0;
    }
    if at.Some? { InsertAtNoDup(s, at.value, id); } else { AppendNoDup(s, id); }
  }

  lemma AddRowLabels(g: Grid, at: Option<nat>)
    requires NoDup(g.rowOrder) && Bounded(g) && !g.hideRowNumColumn
    requires LabelsBelow(g, if at.Some? then at.value else |g.rowOrder|)
    ensures var r := AddRow(g, at).0;
      LabelsBelow(r, if at.Some? then at.value else |r.rowOrder|)
  {
    var r := AddRow(g, at).0;
    var id := g.counter + 1;
    var s := g.rowOrder;
    assert id !in s;
    var b := if at.Some? then at.value else |r.rowOrder|;
    if at.Some? { InsertAtFacts(s, at.value, id); }
    forall i | 0 <= i < |r.rowOrder| && i < b
      ensures r.rowOrder[i] in r.labels && r.labels[r.rowOrder[i]] == i + 1
    {
      if at.Some? {
        var q := Min(at.value, |s|);
        if i < q {
          assert r.rowOrder[i] == s[i] && s[i] != id;
        } else {
          assert i == q && r.rowOrder[i] == id;
        }
      } else if i < |s| {
        assert r.rowOrder[i] == s[i] && s[i] != id;
      }
    }
  }

  lemma AddRowKeepsPending(g: Grid, at: Option<nat>)
    requires Pending(g, at)
    ensures Pending(AddRow(g, at).0, at)
  {
    var r := AddRow(g, at).0;
    var id := g.counter + 1;
    var s := g.rowOrder;
    assert id !in s;
    NextOrderFresh(s, at, id);
    assert r.rowOrder == NextOrder(s, at, id);
    assert Bounded(r) by {
      forall i | 0 <= i < |r.rowOrder| ensures 1 <= r.rowOrder[i] <= r.counter {
        var x := r.rowOrder[i];
        if x != id {
          assert x in s;
          var j :| 0 <= j < |s| && s[j] == x;
        }
      }
    }
    assert CellsLive(r) by {
      forall k | k in r.cells ensures k.1 in r.rowOrder {
        assert k in g.cells;
      }
    }
    assert LabelKeysLive(r);
    if !g.hideRowNumColumn {
      AddRowLabels(g, at);
    }
  }

  lemma {:induction false} InsertManyKeepsPending(g: Grid, at: Option<nat>, n: nat)
    requires Pending(g, at)
    ensures Pending(InsertMany(g, at, n).0, at)
    decreases n
  {
    if n > 0 {
      AddRowKeepsPending(g, at);
      InsertManyKeepsPending(AddRow(g, at).0, at, n - 1);
    }
  }

  /** Populating rows adds only keys of those rows and keeps every existing key. */
  lemma {:induction false} WriteRowsFrame(cells: Cells, cols: seq<Column>, ids: seq<nat>, srcs: seq<RowSource>)
    requires |ids| == |srcs|
    ensures forall k :: k in WriteRows(cells, cols, ids, srcs) ==> k in cells || k.1 in ids
    ensures forall k :: k in cells ==> k in WriteRows(cells, cols, ids, srcs)
    ensures forall k :: k in cells && k.1 !in ids ==> WriteRows(cells, cols, ids, srcs)[k] == cells[k]
    decreases |ids|
  {
    if |ids| > 0 {
      var next := WriteColumns(cells, cols, ids[0], srcs[0]);
      WriteColumnsKeys(cells, cols, ids[0], srcs[0]);
      WriteRowsFrame(next, cols, ids[1..], srcs[1..]);
      forall k | k in cells && k.1 !in ids
        ensures WriteRows(cells, cols, ids, srcs)[k] == cells[k]
      {
        WriteColumnsFrame(cells, cols, ids[0], srcs[0], k);
      }
    }
  }

  /** With distinct rows and unique column names, row `ids[j]`'s control for
      column i ends up holding that column's initial value from `srcs[j]`. */
  lemma {:induction false} WriteRowsValues(cells: Cells, cols: seq<Column>, ids: seq<nat>, srcs: seq<RowSource>, j: nat, i: nat)
    requires |ids| == |srcs| && NoDup(ids) && DistinctNames(cols)
    requires j < |ids| && i < |cols| && !cols[i].ctype.Custom?
    ensures (cols[i].name, ids[j]) in WriteRows(cells, cols, ids, srcs)
    ensures WriteRows(cells, cols, ids, srcs)[(cols[i].name, ids[j])] == InitialValue(cols[i], srcs[j])
    decreases |ids|
  {
    var next := WriteColumns(cells, cols, ids[0], srcs[0]);
    if j == 0 {
      WriteColumnsValues(cells, cols, ids[0], srcs[0], i);
      WriteRowsFrame(next, cols, ids[1..], srcs[1..]);
      assert ids[0] !in ids[1..] by {
        forall m | 0 <= m < |ids[1..]| ensures ids[1..][m] != ids[0] {
          assert ids[1..][m] == ids[m + 1];
        }
      }
    } else {
      assert NoDup(ids[1..]) by {
        forall a, b | 0 <= a < b < |ids[1..]| ensures ids[1..][a] != ids[1..][b] {
          assert ids[1..][a] == ids[a + 1] && ids[1..][b] == ids[b + 1];
        }
      }
      WriteRowsValues(next, cols, ids[1..], srcs[1..], j - 1, i);
    }
  }

  /** Populating controls of rows that are in the grid keeps the loop invariant. */
  lemma PopulateKeepsPending(g: Grid, at: Option<nat>, cols: seq<Column>, ids: seq<nat>, srcs: seq<RowSource>)
    requires Pending(g, at) && |ids| == |srcs|
    requires forall x :: x in ids ==> x in g.rowOrder
    ensures Pending(g.(cells := WriteRows(g.cells, cols, ids, srcs)), at)
  {
    WriteRowsFrame(g.cells, cols, ids, srcs);
    var r := g.(cells := WriteRows(g.cells, cols, ids, srcs));
    assert CellsLive(r);
    assert LabelKeysLive(r);
    if !g.hideRowNumColumn {
      assert LabelsBelow(g, if at.Some? then at.value else |g.rowOrder|);
    }
  }

  lemma InsertManyHoldsNew(g: Grid, at: Option<nat>, n: nat)
    ensures forall x :: x in Span(g.counter + 1, n) ==> x in InsertMany(g, at, n).0.rowOrder
  {
    var r := InsertMany(g, at, n).0;
    InsertManyRowOrder(g, at, n);
    OrderAfterAllocates(g.rowOrder, at, g.counter, n);
    forall x | x in Span(g.counter + 1, n) ensures x in r.rowOrder {
      assert multiset(Span(g.counter + 1, n))[x] > 0;
      assert multiset(r.rowOrder)[x] > 0;
    }
  }

  /** The loop invariant and the final resync give the grid invariant. */
  lemma PendingFinish(g: Grid, at: Option<nat>)
    requires Pending(g, at)
    ensures at.Some? ==> Valid(SortSequence(g, at.value))
    ensures at.None? ==> Valid(g)
  {
    if at.Some? {
      SortSequenceSyncs(g, at.value);
    }
  }

  /** The state the loop starts from keeps the loop invariant. */
  lemma StartPending(g: Grid, at: Option<nat>)
    requires Valid(g)
    ensures Pending(if |g.rowOrder| == 0 then g.(labels := map[], cells := map[]) else g, at)
  {
    if !g.hideRowNumColumn && at.Some? {
      assert LabelsBelow(g, |g.rowOrder|);
    }
  }

  /** The loop, the population pass and the resync, from a state that
      keeps the loop invariant. */
  lemma LoopKeepsValid(g0: Grid, at: Option<nat>, n: nat, cols: seq<Column>, srcs: seq<RowSource>)
    requires Pending(g0, at) && |srcs| == n
    ensures Valid(Stages(g0, at, n, cols, srcs).0)
  {
    InsertManyKeepsPending(g0, at, n);
    var g1 := InsertMany(g0, at, n).0;
    var ids := Span(g0.counter + 1, n);
    InsertManyHoldsNew(g0, at, n);
    PopulateKeepsPending(g1, at, cols, ids, srcs);
    var g2 := g1.(cells := WriteRows(g1.cells, cols, ids, srcs));
    PendingFinish(g2, at);
    if at.Some? {
      assert Stages(g0, at, n, cols, srcs).0 == SortSequence(g2, at.value);
    } else {
      assert Stages(g0, at, n, cols, srcs).0 == g2;
    }
  }

  /** `insertRow` keeps `rowOrder` duplicate-free, bounded by the counter,
      and every label equal to its row's position + 1. */
  lemma InsertRowKeepsValid(g: Grid, payload: Payload, rowIndex: Option<nat>, caller: Option<nat>)
    requires Valid(g)
    ensures Valid(InsertRow(g, payload, rowIndex, caller).grid)
  {
    var a := ResolveAnchor(g.rowOrder, rowIndex, caller);
    var g0 := if |g.rowOrder| == 0 then g.(labels := map[], cells := map[]) else g;
    StartPending(g, a.at);
    LoopKeepsValid(g0, a.at, Size(payload), g.columns, Sources(payload));
  }

  // ---------------------------------------------------------------------
  // Shape of the result

  lemma {:induction false} OrderAfterAppends(s: seq<nat>, c: nat, n: nat)
    ensures OrderAfter(s, None, c, n) == s + Span(c + 1, n)
    ensures AddedAfter(|s|, None, n) == Span(|s|, n)
    decreases n
  {
    if n > 0 {
      OrderAfterAppends(s + [c + 1], c + 1, n - 1);
      assert s + Span(c + 1, n) == (s + [c + 1]) + Span(c + 2, n - 1);
    }
  }

  lemma {:induction false} OrderAfterAtPosition(s: seq<nat>, p: nat, c: nat, n: nat)
    requires p <= |s|
    ensures OrderAfter(s, Some(p), c, n) == s[..p] + DescSpan(c + 1, n) + s[p..]
    ensures AddedAfter(|s|, Some(p), n) == seq(n, _ => p)
    decreases n
  {
    if n > 0 {
      var s1 := InsertAt(s, p, c + 1);
      assert s1 == s[..p] + [c + 1] + s[p..];
      assert s1[..p] == s[..p];
      assert s1[p..] == [c + 1] + s[p..];
      OrderAfterAtPosition(s1, p, c + 1, n - 1);
      assert DescSpan(c + 1, n) == DescSpan(c + 2, n - 1) + [c + 1];
    }
  }

  /** An append of N rows (no usable anchor) pushes the identities
      old+1..old+N in order, keeps the existing rows, and reports
      `addedRows` = [oldLen, ..., oldLen+N-1]. */
  lemma InsertRowAppend(g: Grid, payload: Payload, rowIndex: Option<nat>, caller: Option<nat>)
    requires ResolveAnchor(g.rowOrder, rowIndex, caller).at.None?
    ensures InsertRow(g, payload, rowIndex, caller).grid.rowOrder == g.rowOrder + Span(g.counter + 1, Size(payload))
    ensures InsertRow(g, payload, rowIndex, caller).addedRows == Span(|g.rowOrder|, Size(payload))
  {
    InsertRowOrder(g, payload, rowIndex, caller);
    OrderAfterAppends(g.rowOrder, g.counter, Size(payload));
  }

  /** A positional insert of N rows at p keeps the rows before p, puts the new
      identities at p..p+N-1 newest first, shifts the old rows from p by N, and
      reports `addedRows` = N copies of p. */
  lemma InsertRowAtPosition(g: Grid, payload: Payload, rowIndex: Option<nat>, caller: Option<nat>, p: nat)
    requires ResolveAnchor(g.rowOrder, rowIndex, caller).at == Some(p)
    requires p <= |g.rowOrder|
    ensures InsertRow(g, payload, rowIndex, caller).grid.rowOrder
         == g.rowOrder[..p] + DescSpan(g.counter + 1, Size(payload)) + g.rowOrder[p..]
    ensures InsertRow(g, payload, rowIndex, caller).addedRows == seq(Size(payload), _ => p)
  {
    InsertRowOrder(g, payload, rowIndex, caller);
    OrderAfterAtPosition(g.rowOrder, p, g.counter, Size(payload));
  }

  /** The row-button insert: one new row lands directly in front of the
      calling row, which moves down by one. */
  lemma InsertBeforeCaller(g: Grid, u: nat)
    requires u in g.rowOrder
    ensures var r := InsertRow(g, Count(1), None, Some(u)).grid;
      var z := FindRowIndex(g.rowOrder, u).value;
      z + 1 < |r.rowOrder| && r.rowOrder[z] == g.counter + 1 && r.rowOrder[z + 1] == u
  {
    var z := FindRowIndex(g.rowOrder, u).value;
    InsertRowAtPosition(g, Count(1), None, Some(u), z);
    var s := g.rowOrder;
    assert DescSpan(g.counter + 1, 1) == [g.counter + 1];
    var t := s[..z] + [g.counter + 1] + s[z..];
    assert t[z] == g.counter + 1 && t[z + 1] == s[z];
  }

  // ---------------------------------------------------------------------
  // Controls of the result

  lemma SpanNoDup(lo: nat, n: nat)
    ensures NoDup(Span(lo, n))
  {
  }

  /** The controls after `insertRow`: the old store (emptied when the grid
      had no rows) with the new identities populated from their sources. */
  lemma InsertRowCellsAre(g: Grid, payload: Payload, rowIndex: Option<nat>, caller: Option<nat>)
    ensures InsertRow(g, payload, rowIndex, caller).grid.cells
         == WriteRows(if |g.rowOrder| == 0 then map[] else g.cells, g.columns,
                      Span(g.counter + 1, Size(payload)), Sources(payload))
  {
    var a := ResolveAnchor(g.rowOrder, rowIndex, caller);
    var g0 := if |g.rowOrder| == 0 then g.(labels := map[], cells := map[]) else g;
    assert InsertRow(g, payload, rowIndex, caller).grid == Stages(g0, a.at, Size(payload), g.columns, Sources(payload)).0;
  }

  /** Populating rows gives every one of them a control per non-custom column. */
  lemma {:induction false} WriteRowsKeys(cells: Cells, cols: seq<Column>, ids: seq<nat>, srcs: seq<RowSource>)
    requires |ids| == |srcs|
    ensures forall x, n :: x in ids && n in ControlNames(cols) ==> (n, x) in WriteRows(cells, cols, ids, srcs)
    decreases |ids|
  {
    if |ids| > 0 {
      var next := WriteColumns(cells, cols, ids[0], srcs[0]);
      WriteColumnsKeys(cells, cols, ids[0], srcs[0]);
      WriteRowsFrame(next, cols, ids[1..], srcs[1..]);
      WriteRowsKeys(next, cols, ids[1..], srcs[1..]);
      forall x, n | x in ids && n in ControlNames(cols) ensures (n, x) in WriteRows(cells, cols, ids, srcs) {
        if x != ids[0] {
          assert x in ids[1..];
        }
      }
    }
  }

  /** The j-th new row, identity old+1+j, holds in each non-custom control
      the initial value taken from the j-th source: the record's field, or
      the column default, or the empty state. */
  lemma InsertRowCells(g: Grid, payload: Payload, rowIndex: Option<nat>, caller: Option<nat>, j: nat, i: nat)
    requires DistinctNames(g.columns)
    requires j < Size(payload) && i < |g.columns| && !g.columns[i].ctype.Custom?
    ensures var r := InsertRow(g, payload, rowIndex, caller).grid;
      var key := (g.columns[i].name, g.counter + 1 + j);
      key in r.cells && r.cells[key] == InitialValue(g.columns[i], Sources(payload)[j])
  {
    var base: Cells := if |g.rowOrder| == 0 then map[] else g.cells;
    InsertRowCellsAre(g, payload, rowIndex, caller);
    SpanNoDup(g.counter + 1, Size(payload));
    WriteRowsValues(base, g.columns, Span(g.counter + 1, Size(payload)), Sources(payload), j, i);
  }

  /** `insertRow` leaves the controls of the rows already in the grid as
      they were. */
  lemma InsertRowKeepsCells(g: Grid, payload: Payload, rowIndex: Option<nat>, caller: Option<nat>)
    requires Bounded(g)
    ensures var r := InsertRow(g, payload, rowIndex, caller).grid;
      forall k :: k in g.cells && k.1 in g.rowOrder ==> k in r.cells && r.cells[k] == g.cells[k]
  {
    var ids := Span(g.counter + 1, Size(payload));
    InsertRowCellsAre(g, payload, rowIndex, caller);
    WriteRowsFrame(g.cells, g.columns, ids, Sources(payload));
    forall k | k in g.cells && k.1 in g.rowOrder ensures k.1 !in ids {
      var i :| 0 <= i < |g.rowOrder| && g.rowOrder[i] == k.1;
      assert k.1 <= g.counter;
    }
  }

  /** Every row after `insertRow` is an old row or one of old+1..old+N. */
  lemma InsertRowMembers(g: Grid, payload: Payload, rowIndex: Option<nat>, caller: Option<nat>)
    ensures forall x :: x in InsertRow(g, payload, rowIndex, caller).grid.rowOrder ==>
      x in g.rowOrder || x in Span(g.counter + 1, Size(payload))
  {
    var r := InsertRow(g, payload, rowIndex, caller).grid;
    InsertRowAllocates(g, payload, rowIndex, caller);
    forall x | x in r.rowOrder ensures x in g.rowOrder || x in Span(g.counter + 1, Size(payload)) {
      assert multiset(r.rowOrder)[x] > 0;
    }
  }

  /** `insertRow` keeps every live row supplied with its controls. */
  lemma InsertRowKeepsComplete(g: Grid, payload: Payload, rowIndex: Option<nat>, caller: Option<nat>)
    requires Bounded(g) && CellsComplete(g)
    ensures CellsComplete(InsertRow(g, payload, rowIndex, caller).grid)
  {
    var r := InsertRow(g, payload, rowIndex, caller).grid;
    var ids := Span(g.counter + 1, Size(payload));
    var base: Cells := if |g.rowOrder| == 0 then map[] else g.cells;
    InsertRowMembers(g, payload, rowIndex, caller);
    InsertRowKeepsCells(g, payload, rowIndex, caller);
    InsertRowCellsAre(g, payload, rowIndex, caller);
    WriteRowsKeys(base, g.columns, ids, Sources(payload));
    forall x, n | x in r.rowOrder && n in ControlNames(r.columns) ensures (n, x) in r.cells {
      if x !in ids {
        assert (n, x) in g.cells;
      }
    }
  }
}
