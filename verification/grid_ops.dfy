/** The public operations composed: `loadData`, the constructor's initial
    fill, `rowButtonActions`, and arbitrary sequences of operations. */
module GridOps {
  import opened Wrappers
  import opened CellStore
  import opened RowStore
  import opened InsertRows
  import opened RemoveRows
  import opened MoveRows

  // ---------------------------------------------------------------------
  // loadData

  /** The grid with no rows: what the constructor starts from and what
      `loadData` clears to (`rowOrder.length = 0`, `uniqueIndex = 0`, and the
      table body emptied). */
  function Cleared(g: Grid): (r: Grid)
    ensures r.columns == g.columns && r.hideRowNumColumn == g.hideRowNumColumn
    ensures r.counter == 0 && |r.rowOrder| == 0 && r.labels == map[] && r.cells == map[]
  {
    g.(counter := 0, rowOrder := [], labels := map[], cells := map[])
  }

  /** `loadData(records)`: rejects an empty list before touching anything;
      otherwise clears the grid, resets the identity counter, appends one row
      per record and writes each record's fields into its row. */
  function LoadData(g: Grid, records: seq<Record>): (r: Result<Grid, GridError>)
    ensures r.Failure? <==> |records| == 0
    ensures r.Failure? ==> r.error == InvalidInput
    ensures r.Success? ==> r.value.columns == g.columns && r.value.hideRowNumColumn == g.hideRowNumColumn
    ensures r.Success? ==> r.value.counter == |records|
  {
    if |records| == 0 then Failure(InvalidInput)
    else
      var ins := InsertRow(Cleared(g), Count(|records|), None, None);
      InsertRowAppend(Cleared(g), Count(|records|), None, None);
      var rows := ins.grid;
      Success(rows.(cells := WriteRows(rows.cells, g.columns, rows.rowOrder, Sources(Records(records)))))
  }

  /** Replacing control values on live rows keeps the grid consistent. */
  lemma NewCellsKeepValid(g: Grid, cells: Cells)
    requires Valid(g)
    requires forall k :: k in cells ==> k in g.cells || k.1 in g.rowOrder
    ensures Valid(g.(cells := cells))
  {
    var r := g.(cells := cells);
    assert LabelsSynced(r) by {
      if !g.hideRowNumColumn {
        assert LabelsBelow(g, |g.rowOrder|);
      }
    }
  }

  /** The cleared grid is consistent. */
  lemma ClearedValid(g: Grid)
    ensures Valid(Cleared(g))
  {
  }

  /** Appending N blank rows to a grid with no rows and a reset counter
      gives the rows 1..N. */
  lemma AppendToEmpty(c: Grid, n: nat)
    requires c.rowOrder == [] && c.counter == 0
    ensures InsertRow(c, Count(n), None, None).grid.rowOrder == Span(1, n)
  {
    InsertRowAppend(c, Count(n), None, None);
    assert c.rowOrder + Span(c.counter + 1, n) == Span(1, n);
  }

  /** A load numbers its rows 1..N afresh, whatever identities were handed
      out before. */
  lemma LoadDataOrder(g: Grid, records: seq<Record>)
    requires |records| > 0
    ensures LoadData(g, records).Success?
    ensures LoadData(g, records).value.rowOrder == Span(1, |records|)
  {
    AppendToEmpty(Cleared(g), |records|);
  }

  /** A load leaves a consistent grid. */
  lemma LoadDataValid(g: Grid, records: seq<Record>)
    requires |records| > 0
    ensures LoadData(g, records).Success?
    ensures Valid(LoadData(g, records).value)
  {
    var rows := InsertRow(Cleared(g), Count(|records|), None, None).grid;
    AppendToEmpty(Cleared(g), |records|);
    ClearedValid(g);
    InsertRowKeepsValid(Cleared(g), Count(|records|), None, None);
    var cells := WriteRows(rows.cells, g.columns, rows.rowOrder, Sources(Records(records)));
    WriteRowsFrame(rows.cells, g.columns, rows.rowOrder, Sources(Records(records)));
    NewCellsKeepValid(rows, cells);
  }

  /** Load then read: when every custom column has a getter, reading row
      `j + 1` back gives, per column, the reference view `ReadBack` of the
      record field of that name; otherwise the read throws. */
  lemma LoadThenRead(g: Grid, records: seq<Record>, j: nat, i: nat)
    requires DistinctNames(g.columns)
    requires j < |records| && i < |g.columns|
    ensures var r := LoadData(g, records).value;
      var row := GetRowValue(r.cells, g.columns, j + 1, None);
      && j < |r.rowOrder| && r.rowOrder[j] == j + 1
      && (row.Failure? <==> MissingGetter(g.columns))
      && (row.Success? ==>
            g.columns[i].name in row.value
            && row.value[g.columns[i].name] == ReadBack(g.columns[i], j + 1, Field(records[j], g.columns[i].name)))
  {
    LoadDataOrder(g, records);
    var r := LoadData(g, records).value;
    var c := Cleared(g);
    var rows := InsertRow(c, Count(|records|), None, None).grid;
    var srcs := Sources(Records(records));
    assert r.cells == WriteRows(rows.cells, g.columns, rows.rowOrder, srcs);
    FromRecordsAt(records, j);
    var col := g.columns[i];
    var d := Field(records[j], col.name);
    if !col.ctype.Custom? {
      WriteRowsValues(rows.cells, g.columns, rows.rowOrder, srcs, j, i);
    }
    if !MissingGetter(g.columns) {
      assert !(col.ctype.Custom? && !col.ctype.hasGetter);
      StoredReadsBack(r.cells, col, j + 1, d);
      assert col.name + Suffix(None) == col.name;
    }
  }

  // ---------------------------------------------------------------------
  // Constructor

  /** The constructor's fill: `initData` (when it is an array) goes through
      `loadData`, which throws on an empty one; otherwise `initRows` blank
      rows are appended. */
  function Init(columns: seq<Column>, hideRowNumColumn: bool, initRows: nat, initData: Option<seq<Record>>)
    : (r: Result<Grid, GridError>)
    ensures r.Failure? <==> initData == Some([])
    ensures r.Success? ==> r.value.columns == columns && r.value.hideRowNumColumn == hideRowNumColumn
  {
    var empty := Grid(columns, hideRowNumColumn, 0, [], map[], map[]);
    if initData.Some? then LoadData(empty, initData.value)
    else Success(InsertRow(empty, Count(initRows), None, None).grid)
  }

  /** A constructed grid is consistent and numbers its rows 1..N. */
  lemma InitShape(columns: seq<Column>, hideRowNumColumn: bool, initRows: nat, initData: Option<seq<Record>>)
    requires initData != Some([])
    ensures var r := Init(columns, hideRowNumColumn, initRows, initData);
      && r.Success?
      && Valid(r.value)
      && r.value.rowOrder == Span(1, if initData.Some? then |initData.value| else initRows)
  {
    var empty := Grid(columns, hideRowNumColumn, 0, [], map[], map[]);
    if initData.Some? {
      LoadDataOrder(empty, initData.value);
      LoadDataValid(empty, initData.value);
    } else {
      assert Valid(empty);
      InsertRowKeepsValid(empty, Count(initRows), None, None);
      InsertRowAppend(empty, Count(initRows), None, None);
    }
  }

  // ---------------------------------------------------------------------
  // rowButtonActions

  /** `rowButtonActions(type, uniqueIndex)`: the four per-row buttons;
      any other action name does nothing. */
  function RowButtonActions(g: Grid, action: string, u: nat, hook: Option<bool>): (r: Grid)
    ensures r.columns == g.columns && r.hideRowNumColumn == g.hideRowNumColumn
    ensures action !in {"insert", "remove", "moveUp", "moveDown"} ==> r == g
    ensures action == "insert" ==> r.counter == g.counter + 1
    ensures action == "insert" ==> |r.rowOrder| == |g.rowOrder| + 1 && g.counter + 1 in r.rowOrder
    ensures action != "insert" ==> r.counter == g.counter
  {
    if action == "insert" then
      InsertButtonAdds(g, u);
      InsertRow(g, Count(1), None, Some(u)).grid
    else if action == "remove" then RemoveRow(g, None, Some(u), false, hook)
    else if action == "moveUp" then MoveUpRow(g, None, Some(u))
    else if action == "moveDown" then MoveDownRow(g, None, Some(u))
    else g
  }

  /** The insert button adds exactly one row, the fresh identity. */
  lemma InsertButtonAdds(g: Grid, u: nat)
    ensures var r := InsertRow(g, Count(1), None, Some(u)).grid;
      |r.rowOrder| == |g.rowOrder| + 1 && g.counter + 1 in r.rowOrder
  {
    var r := InsertRow(g, Count(1), None, Some(u)).grid;
    InsertRowAllocates(g, Count(1), None, Some(u));
    assert Span(g.counter + 1, 1) == [g.counter + 1];
    assert multiset(r.rowOrder)[g.counter + 1] > 0;
  }

  /** The insert button of a live row puts the new row directly in front
      of that row, which moves down by one; the others keep the counter. */
  lemma InsertButtonPlaces(g: Grid, u: nat, hook: Option<bool>)
    requires u in g.rowOrder
    ensures var r := RowButtonActions(g, "insert", u, hook);
      var z := FindRowIndex(g.rowOrder, u).value;
      z + 1 < |r.rowOrder| && r.rowOrder[z] == g.counter + 1 && r.rowOrder[z + 1] == u
  {
    assert RowButtonActions(g, "insert", u, hook) == InsertRow(g, Count(1), None, Some(u)).grid;
    InsertBeforeCaller(g, u);
  }

  // ---------------------------------------------------------------------
  // Sequences of operations

  /** One call on the public surface of the grid. */
  datatype Op =
    | Insert(payload: Payload, rowIndex: Option<nat>, caller: Option<nat>)
    | Remove(rowIndex: Option<nat>, uniqueIndex: Option<nat>, force: bool, hook: Option<bool>)
    | MoveUp(rowIndex: Option<nat>, uniqueIndex: Option<nat>)
    | MoveDown(rowIndex: Option<nat>, uniqueIndex: Option<nat>)
    | SetValue(colIndex: nat, id: nat, data: Data)
    | Load(records: seq<Record>)
    | Button(action: string, id: nat, hook: Option<bool>)

  /** The state after one call. A call that throws before changing anything
      (an empty load, a missing control, a column index out of range) leaves
      the state as it was. */
  function Apply(g: Grid, op: Op): (r: Grid)
    ensures r.columns == g.columns && r.hideRowNumColumn == g.hideRowNumColumn
    ensures op.Load? && |op.records| == 0 ==> r == g
    ensures op.SetValue? ==> r.rowOrder == g.rowOrder && r.counter == g.counter && r.cells.Keys == g.cells.Keys
  {
    match op
    case Insert(p, i, c) => InsertRow(g, p, i, c).grid
    case Remove(i, u, f, h) => RemoveRow(g, i, u, f, h)
    case MoveUp(i, u) => MoveUpRow(g, i, u)
    case MoveDown(i, u) => MoveDownRow(g, i, u)
    case SetValue(ci, u, d) =>
      if ci >= |g.columns| then g
      else
        var written := SetCtrlValue(g.cells, g.columns[ci], u, d);
        if written.Success? then g.(cells := written.value) else g
    case Load(recs) =>
      var load := LoadData(g, recs);
      if load.Success? then load.value else g
    case Button(a, u, h) => RowButtonActions(g, a, u, h)
  }

  function Run(g: Grid, ops: seq<Op>): Grid
    decreases |ops|
  {
    if |ops| == 0 then g else Run(Apply(g, ops[0]), ops[1..])
  }

  /** Every call keeps the grid consistent. */
  lemma ApplyKeepsValid(g: Grid, op: Op)
    requires Valid(g)
    ensures Valid(Apply(g, op))
  {
    match op
    case Insert(p, i, c) => InsertRowKeepsValid(g, p, i, c);
    case Remove(i, u, f, h) => RemoveRowKeepsValid(g, i, u, f, h);
    case MoveUp(i, u) => MoveUpKeepsValid(g, i, u);
    case MoveDown(i, u) => MoveDownKeepsValid(g, i, u);
    case SetValue(ci, u, d) =>
    case Load(recs) => if |recs| > 0 { LoadDataValid(g, recs); }
    case Button(a, u, h) =>
      assert Apply(g, op) == RowButtonActions(g, a, u, h);
      ButtonKeepsValid(g, a, u, h);
  }

  /** Every row button keeps the grid consistent. */
  lemma ButtonKeepsValid(g: Grid, action: string, u: nat, hook: Option<bool>)
    requires Valid(g)
    ensures Valid(RowButtonActions(g, action, u, hook))
  {
    if action == "insert" { InsertRowKeepsValid(g, Count(1), None, Some(u)); }
    else if action == "remove" { RemoveRowKeepsValid(g, None, Some(u), false, hook); }
    else if action == "moveUp" { MoveUpKeepsValid(g, None, Some(u)); }
    else if action == "moveDown" { MoveDownKeepsValid(g, None, Some(u)); }
  }

  /** Any sequence of calls keeps the grid consistent. */
  lemma {:induction false} RunKeepsValid(g: Grid, ops: seq<Op>)
    requires Valid(g)
    ensures Valid(Run(g, ops))
    decreases |ops|
  {
    if |ops| > 0 {
      ApplyKeepsValid(g, ops[0]);
      RunKeepsValid(Apply(g, ops[0]), ops[1..]);
    }
  }

  /** Short of a reload, a call never lowers the counter and every row it
      leaves is either an old row or a freshly numbered one. */
  lemma ApplyAllocatesFresh(g: Grid, op: Op)
    requires !op.Load?
    ensures Apply(g, op).counter >= g.counter
    ensures forall x :: x in Apply(g, op).rowOrder ==> x in g.rowOrder || x > g.counter
  {
    match op
    case Insert(p, i, c) => InsertFresh(g, p, i, c);
    case Remove(i, u, f, h) => RemoveKeepsOld(g, i, u, f, h);
    case MoveUp(i, u) => MovePermutes(g, MoveUpRow(g, i, u));
    case MoveDown(i, u) => MovePermutes(g, MoveDownRow(g, i, u));
    case SetValue(ci, u, d) =>
    case Button(a, u, h) =>
      if a == "insert" { InsertFresh(g, Count(1), None, Some(u)); }
      else if a == "remove" { RemoveKeepsOld(g, None, Some(u), false, h); }
      else if a == "moveUp" { MovePermutes(g, MoveUpRow(g, None, Some(u))); }
      else if a == "moveDown" { MovePermutes(g, MoveDownRow(g, None, Some(u))); }
  }

  lemma InsertFresh(g: Grid, p: Payload, i: Option<nat>, c: Option<nat>)
    ensures forall x :: x in InsertRow(g, p, i, c).grid.rowOrder ==> x in g.rowOrder || x > g.counter
  {
    var r := InsertRow(g, p, i, c).grid;
    InsertRowAllocates(g, p, i, c);
    forall x | x in r.rowOrder ensures x in g.rowOrder || x > g.counter {
      assert multiset(r.rowOrder)[x] > 0;
      if x !in g.rowOrder {
        assert multiset(Span(g.counter + 1, Size(p)))[x] > 0;
        SpanMembers(g.counter + 1, Size(p), x);
      }
    }
  }

  lemma RemoveKeepsOld(g: Grid, i: Option<nat>, u: Option<nat>, f: bool, h: Option<bool>)
    ensures forall x :: x in RemoveRow(g, i, u, f, h).rowOrder ==> x in g.rowOrder
  {
    var r := RemoveRow(g, i, u, f, h);
    RemoveRowShrinks(g, i, u, f, h);
    forall x | x in r.rowOrder ensures x in g.rowOrder {
      assert multiset(r.rowOrder)[x] > 0;
    }
  }

  lemma MovePermutes(g: Grid, r: Grid)
    requires multiset(r.rowOrder) == multiset(g.rowOrder)
    ensures forall x :: x in r.rowOrder ==> x in g.rowOrder
  {
    forall x | x in r.rowOrder ensures x in g.rowOrder {
      assert multiset(r.rowOrder)[x] > 0;
    }
  }

  /** Identities are not reused while no reload happens: a row identity
      that was handed out (at most the counter) and has since left the grid
      stays out of it. */
  lemma {:induction false} RetiredStaysRetired(g: Grid, ops: seq<Op>, u: nat)
    requires forall k :: 0 <= k < |ops| ==> !ops[k].Load?
    requires u <= g.counter && u !in g.rowOrder
    ensures u !in Run(g, ops).rowOrder
    ensures Run(g, ops).counter >= g.counter
    decreases |ops|
  {
    if |ops| > 0 {
      ApplyAllocatesFresh(g, ops[0]);
      RetiredStaysRetired(Apply(g, ops[0]), ops[1..], u);
    }
  }

  /** A reload breaks that: identity 1 is handed out again whatever the
      counter stood at. */
  lemma LoadReusesIdentity(g: Grid, records: seq<Record>)
    requires |records| > 0
    ensures 1 in Apply(g, Load(records)).rowOrder
  {
    var r := LoadData(g, records).value;
    assert Apply(g, Load(records)) == r;
    LoadDataOrder(g, records);
    assert r.rowOrder[0] == 1;
  }

  // ---------------------------------------------------------------------
  // Every live row has its controls

  /** A load gives every row a control per non-custom column. */
  lemma LoadDataComplete(g: Grid, records: seq<Record>)
    requires |records| > 0
    ensures LoadData(g, records).Success?
    ensures CellsComplete(LoadData(g, records).value)
  {
    var c := Cleared(g);
    var rows := InsertRow(c, Count(|records|), None, None).grid;
    AppendToEmpty(c, |records|);
    assert Bounded(c) && CellsComplete(c);
    InsertRowKeepsComplete(c, Count(|records|), None, None);
    var srcs := Sources(Records(records));
    WriteRowsFrame(rows.cells, g.columns, rows.rowOrder, srcs);
    assert LoadData(g, records).value == rows.(cells := WriteRows(rows.cells, g.columns, rows.rowOrder, srcs));
  }

  /** Every row button keeps every live row supplied with its controls. */
  lemma ButtonKeepsComplete(g: Grid, action: string, u: nat, hook: Option<bool>)
    requires Valid(g) && CellsComplete(g)
    ensures CellsComplete(RowButtonActions(g, action, u, hook))
  {
    if action == "insert" { InsertRowKeepsComplete(g, Count(1), None, Some(u)); }
    else if action == "remove" { RemoveRowKeepsComplete(g, None, Some(u), false, hook); }
    else { MoveKeepsComplete(g, None, Some(u)); }
  }

  /** Every call keeps every live row supplied with its controls. */
  lemma ApplyKeepsComplete(g: Grid, op: Op)
    requires Valid(g) && CellsComplete(g)
    ensures CellsComplete(Apply(g, op))
  {
    match op
    case Insert(p, i, c) => InsertRowKeepsComplete(g, p, i, c);
    case Remove(i, u, f, h) => RemoveRowKeepsComplete(g, i, u, f, h);
    case MoveUp(i, u) => MoveKeepsComplete(g, i, u);
    case MoveDown(i, u) => MoveKeepsComplete(g, i, u);
    case SetValue(ci, u, d) =>
    case Load(recs) => if |recs| > 0 { LoadDataComplete(g, recs); }
    case Button(a, u, h) =>
      assert Apply(g, op) == RowButtonActions(g, a, u, h);
      ButtonKeepsComplete(g, a, u, h);
  }

  /** Any sequence of calls keeps the grid consistent and every live row
      supplied with its controls. */
  lemma {:induction false} RunKeepsComplete(g: Grid, ops: seq<Op>)
    requires Valid(g) && CellsComplete(g)
    ensures Valid(Run(g, ops)) && CellsComplete(Run(g, ops))
    decreases |ops|
  {
    if |ops| > 0 {
      ApplyKeepsValid(g, ops[0]);
      ApplyKeepsComplete(g, ops[0]);
      RunKeepsComplete(Apply(g, ops[0]), ops[1..]);
    }
  }

  /** A constructed grid gives every row its controls. */
  lemma InitComplete(columns: seq<Column>, hideRowNumColumn: bool, initRows: nat, initData: Option<seq<Record>>)
    requires initData != Some([])
    ensures Init(columns, hideRowNumColumn, initRows, initData).Success?
    ensures CellsComplete(Init(columns, hideRowNumColumn, initRows, initData).value)
  {
    var empty := Grid(columns, hideRowNumColumn, 0, [], map[], map[]);
    if initData.Some? {
      LoadDataComplete(empty, initData.value);
    } else {
      assert Bounded(empty) && CellsComplete(empty);
      InsertRowKeepsComplete(empty, Count(initRows), None, None);
    }
  }

  /** In a grid whose live rows have all their controls, a value written
      to a live row lands: the write succeeds and the control reads back the
      reference view `ReadBack` of the value. */
  lemma SetValueLands(g: Grid, ci: nat, u: nat, d: Data)
    requires CellsComplete(g) && ci < |g.columns| && u in g.rowOrder
    requires !(g.columns[ci].ctype.Custom? && !g.columns[ci].ctype.hasGetter)
    ensures SetCtrlValue(g.cells, g.columns[ci], u, d).Success?
    ensures GetCtrlValue(Apply(g, SetValue(ci, u, d)).cells, g.columns[ci], u) == Success(ReadBack(g.columns[ci], u, d))
  {
    var c := g.columns[ci];
    if !c.ctype.Custom? {
      assert c.name in ControlNames(g.columns);
    }
    SetThenGet(g.cells, c, u, d);
  }
}
