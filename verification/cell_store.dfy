/** The cell value adapter: per-column value coercions on a store of controls
    keyed by (column name, row identity). */
module CellStore {
  import opened Wrappers

  /** A JavaScript value as it reaches or leaves a cell control. `Foreign`
      stands for whatever a column's `customGetter` returns for row `id`;
      the model never looks inside it. */
  datatype Data =
    | Undefined
    | Null
    | Bool(b: bool)
    | Num(n: int)
    | Str(s: string)
    | Foreign(column: string, id: nat)

  /** JavaScript truthiness, as used by `data || ''` and `ctrl.checked ? 1 : 0`. */
  predicate Truthy(d: Data) {
    match d
    case Undefined => false
    case Null => false
    case Bool(b) => b
    case Num(n) => n != 0
    case Str(s) => s != ""
    case Foreign(_, _) => true
  }

  /** Column kinds as far as values are concerned: `checkbox`, `custom` (with
      or without its accessor pair) and every other kind, `hidden` included. */
  datatype ColumnType = Plain | Checkbox | Custom(hasGetter: bool, hasSetter: bool)

  /** A column: its name, its kind and its optional default `value`. */
  datatype Column = Column(name: string, ctype: ColumnType, default: Option<Data>)

  /** A source record: one JavaScript object of a `loadData` array. */
  type Record = map<string, Data>

  /** The controls of the grid: the value held by the control of column `name`
      in row `id`, located by `getCellCtrl`. */
  type Cells = map<(string, nat), Data>

  datatype GridError =
    | InvalidInput
    | MissingAccessor(column: string)
    | MissingControl(column: string, id: nat)

  /** `record[name]`, which is `undefined` for a missing key. */
  function Field(rec: Record, name: string): Data {
    if name in rec then rec[name] else Undefined
  }

  /** The checkbox test `data !== null && data !== 0`. */
  predicate CheckedBy(d: Data) {
    d != Null && d != Num(0)
  }

  /** What a control holds once `setCtrlValue` has written `d` to it. A custom
      column owns no control in the store, so its branch is never stored:
      it only keeps the match total. */
  function Stored(c: Column, d: Data): Data {
    match c.ctype
    case Checkbox => Bool(CheckedBy(d))
    case Plain => if Truthy(d) then d else Str("")
    case Custom(_, _) => d
  }

  /** The native empty state of a freshly generated control. Custom columns
      have no control in this store; their branch only keeps the match total. */
  function FreshValue(c: Column): Data {
    match c.ctype
    case Checkbox => Bool(false)
    case Plain => Str("")
    case Custom(_, _) => Undefined
  }

  /** Reference definition of the read-after-write view: what `getCtrlValue`
      should report for row `id` once `setCtrlValue` wrote `d` there. */
  function ReadBack(c: Column, id: nat, d: Data): Data {
    match c.ctype
    case Checkbox => if d == Null || d == Num(0) then Num(0) else Num(1)
    case Plain => if d == Undefined || d == Null || d == Bool(false) || d == Num(0) || d == Str("") then Str("") else d
    case Custom(_, _) => Foreign(c.name, id)
  }

  /** `setCtrlValue`: a custom column is handed to its setter, or silently
      skipped when there is none; any other column writes its control, which
      must exist (the source dereferences it). */
  function SetCtrlValue(cells: Cells, c: Column, id: nat, d: Data): (r: Result<Cells, GridError>)
    ensures r.Failure? <==> !c.ctype.Custom? && (c.name, id) !in cells
    ensures r.Success? ==> r.value.Keys == cells.Keys
    ensures r.Success? ==> forall k :: k in cells && k != (c.name, id) ==> r.value[k] == cells[k]
    ensures c.ctype.Custom? ==> r == Success(cells)
  {
    if c.ctype.Custom? then Success(cells)
    else if (c.name, id) !in cells then Failure(MissingControl(c.name, id))
    else Success(cells[(c.name, id) := Stored(c, d)])
  }

  /** `getCtrlValue`: strict on a custom column without getter, `null` for a
      control that cannot be located, 1/0 for a checkbox. */
  function GetCtrlValue(cells: Cells, c: Column, id: nat): (r: Result<Data, GridError>)
    ensures r.Failure? <==> c.ctype.Custom? && !c.ctype.hasGetter
    ensures r.Failure? ==> r.error == MissingAccessor(c.name)
    ensures !c.ctype.Custom? && (c.name, id) !in cells ==> r == Success(Null)
    ensures c.ctype == Checkbox && (c.name, id) in cells ==> r == Success(Num(0)) || r == Success(Num(1))
  {
    if c.ctype.Custom? then
      if c.ctype.hasGetter then Success(Foreign(c.name, id)) else Failure(MissingAccessor(c.name))
    else if (c.name, id) !in cells then Success(Null)
    else if c.ctype == Checkbox then Success(Num(if Truthy(cells[(c.name, id)]) then 1 else 0))
    else Success(cells[(c.name, id)])
  }

  /** Writing a value and reading it back gives the reference view `ReadBack`:
      for a checkbox, 1 exactly when the value was neither `null` nor 0 (so
      `undefined` reads back as checked); otherwise the value, or `''` for a
      falsy one. */
  lemma SetThenGet(cells: Cells, c: Column, id: nat, d: Data)
    requires SetCtrlValue(cells, c, id, d).Success?
    requires !(c.ctype.Custom? && !c.ctype.hasGetter)
    ensures GetCtrlValue(SetCtrlValue(cells, c, id, d).value, c, id) == Success(ReadBack(c, id, d))
  {
  }

  /** A control holding what `Stored` put there reads back as `ReadBack`. */
  lemma StoredReadsBack(cells: Cells, c: Column, id: nat, d: Data)
    requires !c.ctype.Custom? ==> (c.name, id) in cells && cells[(c.name, id)] == Stored(c, d)
    requires !(c.ctype.Custom? && !c.ctype.hasGetter)
    ensures GetCtrlValue(cells, c, id) == Success(ReadBack(c, id, d))
  {
  }

  /** Column names are unique within the schema. */
  ghost predicate DistinctNames(cols: seq<Column>) {
    forall i, j :: 0 <= i < j < |cols| ==> cols[i].name != cols[j].name
  }

  /** The names of the columns that own a control in the store. */
  function ControlNames(cols: seq<Column>): set<string> {
    set i | 0 <= i < |cols| && !cols[i].ctype.Custom? :: cols[i].name
  }

  lemma ControlNamesCons(cols: seq<Column>)
    requires cols != []
    ensures ControlNames(cols) == (if cols[0].ctype.Custom? then {} else {cols[0].name}) + ControlNames(cols[1..])
  {
    var head: set<string> := if cols[0].ctype.Custom? then {} else {cols[0].name};
    forall n | n in ControlNames(cols) ensures n in head + ControlNames(cols[1..]) {
      var i :| 0 <= i < |cols| && !cols[i].ctype.Custom? && cols[i].name == n;
      if i > 0 { assert cols[1..][i - 1] == cols[i]; }
    }
    forall n | n in ControlNames(cols[1..]) ensures n in ControlNames(cols) {
      var i :| 0 <= i < |cols[1..]| && !cols[1..][i].ctype.Custom? && cols[1..][i].name == n;
      assert cols[i + 1] == cols[1..][i];
    }
  }

  /** Where a row's values come from while its controls are populated: a
      record (rows inserted from records, and `loadData`), or nothing. */
  datatype RowSource = Blank | FromRecord(rec: Record)

  /** The value a control is populated with: the record's field when there
      is a record, else the column default, else the native empty state. */
  function InitialValue(c: Column, src: RowSource): Data {
    match src
    case FromRecord(rec) => Stored(c, Field(rec, c.name))
    case Blank =>
      match c.default
      case Some(v) => Stored(c, v)
      case None => FreshValue(c)
  }

  /** Writes `InitialValue(c, src)` into row `id` for every non-custom column `c`, in schema
      order: the population step of `insertRow` and `loadData`. */
  function WriteColumns(cells: Cells, cols: seq<Column>, id: nat, src: RowSource): Cells
    decreases |cols|
  {
    if cols == [] then cells
    else
      var c := cols[0];
      WriteColumns(if c.ctype.Custom? then cells else cells[(c.name, id) := InitialValue(c, src)], cols[1..], id, src)
  }

  /** Populating a row adds exactly the controls of its non-custom columns. */
  lemma {:induction false} WriteColumnsKeys(cells: Cells, cols: seq<Column>, id: nat, src: RowSource)
    ensures WriteColumns(cells, cols, id, src).Keys == cells.Keys + set n | n in ControlNames(cols) :: (n, id)
    decreases |cols|
  {
    if cols != [] {
      var c := cols[0];
      ControlNamesCons(cols);
      WriteColumnsKeys(if c.ctype.Custom? then cells else cells[(c.name, id) := InitialValue(c, src)], cols[1..], id, src);
    }
  }

  /** Populating row `id` leaves every other row's controls alone. */
  lemma {:induction false} WriteColumnsFrame(cells: Cells, cols: seq<Column>, id: nat, src: RowSource, k: (string, nat))
    requires k in cells && (k.1 != id || k.0 !in ControlNames(cols))
    ensures k in WriteColumns(cells, cols, id, src) && WriteColumns(cells, cols, id, src)[k] == cells[k]
    decreases |cols|
  {
    if cols != [] {
      var c := cols[0];
      ControlNamesCons(cols);
      WriteColumnsFrame(if c.ctype.Custom? then cells else cells[(c.name, id) := InitialValue(c, src)], cols[1..], id, src, k);
    }
  }

  /** With unique column names, every non-custom column of row `id` ends up
      holding its initial value. */
  lemma {:induction false} WriteColumnsValues(cells: Cells, cols: seq<Column>, id: nat, src: RowSource, i: nat)
    requires DistinctNames(cols) && i < |cols| && !cols[i].ctype.Custom?
    ensures (cols[i].name, id) in WriteColumns(cells, cols, id, src)
    ensures WriteColumns(cells, cols, id, src)[(cols[i].name, id)] == InitialValue(cols[i], src)
    decreases |cols|
  {
    var c := cols[0];
    var next := if c.ctype.Custom? then cells else cells[(c.name, id) := InitialValue(c, src)];
    ControlNamesCons(cols);
    if i == 0 {
      assert c.name !in ControlNames(cols[1..]);
      WriteColumnsFrame(next, cols[1..], id, src, (c.name, id));
    } else {
      assert cols[1..][i - 1] == cols[i];
      WriteColumnsValues(next, cols[1..], id, src, i - 1);
    }
  }

  /** Some column is custom and has no `customGetter`. */
  ghost predicate MissingGetter(cols: seq<Column>) {
    exists i :: 0 <= i < |cols| && cols[i].ctype.Custom? && !cols[i].ctype.hasGetter
  }

  /** The key suffix of `getRowValue`: empty, or `'_' + loopIndex`. */
  function Suffix(loopIndex: Option<string>): string {
    if loopIndex.None? then "" else "_" + loopIndex.value
  }

  /** The keys `getRowValue` produces, one per column. */
  function KeyNames(cols: seq<Column>, sfx: string): set<string> {
    set i | 0 <= i < |cols| :: cols[i].name + sfx
  }

  lemma SuffixInjective(a: string, b: string, sfx: string)
    requires a + sfx == b + sfx
    ensures a == b
  {
    assert |a| == |b|;
    assert a == (a + sfx)[..|a|];
    assert b == (b + sfx)[..|b|];
  }

  lemma MissingGetterCons(cols: seq<Column>)
    requires cols != []
    ensures MissingGetter(cols) <==>
      (cols[0].ctype.Custom? && !cols[0].ctype.hasGetter) || MissingGetter(cols[1..])
  {
    if MissingGetter(cols[1..]) {
      var i :| 0 <= i < |cols[1..]| && cols[1..][i].ctype.Custom? && !cols[1..][i].ctype.hasGetter;
      assert cols[i + 1] == cols[1..][i];
    }
    if MissingGetter(cols) && !(cols[0].ctype.Custom? && !cols[0].ctype.hasGetter) {
      var i :| 0 <= i < |cols| && cols[i].ctype.Custom? && !cols[i].ctype.hasGetter;
      assert cols[1..][i - 1] == cols[i];
    }
  }

  lemma KeyNamesCons(cols: seq<Column>, sfx: string)
    requires cols != []
    ensures KeyNames(cols, sfx) == {cols[0].name + sfx} + KeyNames(cols[1..], sfx)
    ensures DistinctNames(cols) ==> DistinctNames(cols[1..]) && cols[0].name + sfx !in KeyNames(cols[1..], sfx)
  {
    forall k | k in KeyNames(cols, sfx) ensures k in {cols[0].name + sfx} + KeyNames(cols[1..], sfx) {
      var i :| 0 <= i < |cols| && cols[i].name + sfx == k;
      if i > 0 { assert cols[1..][i - 1] == cols[i]; }
    }
    forall k | k in KeyNames(cols[1..], sfx) ensures k in KeyNames(cols, sfx) {
      var i :| 0 <= i < |cols[1..]| && cols[1..][i].name + sfx == k;
      assert cols[i + 1] == cols[1..][i];
    }
    if DistinctNames(cols) && cols[0].name + sfx in KeyNames(cols[1..], sfx) {
      var i :| 0 <= i < |cols[1..]| && cols[1..][i].name + sfx == cols[0].name + sfx;
      assert cols[i + 1] == cols[1..][i];
      SuffixInjective(cols[1..][i].name, cols[0].name, sfx);
    }
  }

  /** Accumulates `name + sfx -> getCtrlValue` over the columns, in order;
      the first failing read aborts the whole row, as the thrown error does. */
  function CollectRow(cells: Cells, cols: seq<Column>, id: nat, sfx: string, acc: map<string, Data>)
    : (r: Result<map<string, Data>, GridError>)
    ensures r.Failure? <==> MissingGetter(cols)
    ensures r.Success? ==> r.value.Keys == acc.Keys + KeyNames(cols, sfx)
    ensures r.Success? ==> forall k :: k in acc && k !in KeyNames(cols, sfx) ==> r.value[k] == acc[k]
    ensures r.Success? && DistinctNames(cols) ==>
      forall i :: 0 <= i < |cols| ==> Success(r.value[cols[i].name + sfx]) == GetCtrlValue(cells, cols[i], id)
    decreases |cols|
  {
    if cols == [] then Success(acc)
    else
      var c := cols[0];
      MissingGetterCons(cols);
      KeyNamesCons(cols, sfx);
      match GetCtrlValue(cells, c, id)
      case Failure(e) => Failure(e)
      case Success(v) => CollectRow(cells, cols[1..], id, sfx, acc[c.name + sfx := v])
  }

  /** `getRowValue`: one key per column, `name + suffix`, holding that column's
      `getCtrlValue`; a custom column without getter makes the call throw. */
  function GetRowValue(cells: Cells, cols: seq<Column>, id: nat, loopIndex: Option<string>)
    : (r: Result<map<string, Data>, GridError>)
    ensures r.Failure? <==> MissingGetter(cols)
    ensures r.Success? ==> r.value.Keys == KeyNames(cols, Suffix(loopIndex))
    ensures r.Success? && DistinctNames(cols) ==>
      forall i :: 0 <= i < |cols| ==>
        Success(r.value[cols[i].name + Suffix(loopIndex)]) == GetCtrlValue(cells, cols[i], id)
  {
    CollectRow(cells, cols, id, Suffix(loopIndex), map[])
  }
}
