/** ObjectStatsTab::refreshData: the pivot table of exposure seconds, one
    row per observed object and one column per filter type, framed by the
    object name and a row total. The three SQL queries are inputs: their
    rows, in the order the queries promise (filter types by priority,
    objects by name), or the error text of a failed query. */
module ObjectStats {
  import opened Wrappers
  import opened Numbers

  /** The outcome of one query: its rows, or the error it reported. */
  datatype Query<T> = Rows(rows: seq<T>) | Failed(error: string)

  datatype FilterType = FilterType(id: int, name: string)

  datatype ObservedObject = ObservedObject(id: int, name: string)

  /** One row of the exposure query: SUM(total_exposure) of an object and a
      filter type, as `int`. */
  datatype ExposureRow = ExposureRow(objectId: int, filterTypeId: int, totalExposure: int)

  type ExposureKey = (int, int)

  function KeyOf(e: ExposureRow): ExposureKey {
    (e.objectId, e.filterTypeId)
  }

  /** The QMap filled from the exposure rows: a later row with the same key
      overwrites an earlier one. */
  function ExposureMap(rows: seq<ExposureRow>): map<ExposureKey, int> {
    if rows == [] then map[]
    else ExposureMap(rows[..|rows| - 1])[KeyOf(rows[|rows| - 1]) := rows[|rows| - 1].totalExposure]
  }

  /** QMap::value(key, 0). */
  function Lookup(m: map<ExposureKey, int>, key: ExposureKey): int {
    if key in m then m[key] else 0
  }

  /** A key is in the map exactly when some row has it. */
  lemma {:induction false} ExposureMapKeys(rows: seq<ExposureRow>, key: ExposureKey)
    ensures key in ExposureMap(rows) <==> exists j :: 0 <= j < |rows| && KeyOf(rows[j]) == key
  {
    if rows != [] {
      var init := rows[..|rows| - 1];
      ExposureMapKeys(init, key);
      if exists j :: 0 <= j < |rows| && KeyOf(rows[j]) == key {
        var j :| 0 <= j < |rows| && KeyOf(rows[j]) == key;
        if j < |init| {
          assert KeyOf(init[j]) == key;
        }
      }
      if exists j :: 0 <= j < |init| && KeyOf(init[j]) == key {
        var j :| 0 <= j < |init| && KeyOf(init[j]) == key;
        assert KeyOf(rows[j]) == key;
      }
    }
  }

  /** The map holds, for each key, the exposure of the last row with that
      key. */
  lemma {:induction false} ExposureMapLastWins(rows: seq<ExposureRow>, j: int)
    requires 0 <= j < |rows|
    requires forall j' :: j < j' < |rows| ==> KeyOf(rows[j']) != KeyOf(rows[j])
    ensures KeyOf(rows[j]) in ExposureMap(rows) && ExposureMap(rows)[KeyOf(rows[j])] == rows[j].totalExposure
  {
    var init := rows[..|rows| - 1];
    if j < |init| {
      assert init[j] == rows[j];
      forall j' | j < j' < |init| ensures KeyOf(init[j']) != KeyOf(init[j]) {
        assert init[j'] == rows[j'];
      }
      ExposureMapLastWins(init, j);
    }
  }

  /** A pair without any exposure row counts as 0 seconds. */
  lemma MissingPairCountsZero(rows: seq<ExposureRow>, key: ExposureKey)
    requires forall j :: 0 <= j < |rows| ==> KeyOf(rows[j]) != key
    ensures Lookup(ExposureMap(rows), key) == 0
  {
    ExposureMapKeys(rows, key);
  }

  /** A cell: the seconds when positive, empty otherwise. */
  function CellText(exposure: int): (t: string)
    ensures t == [] <==> exposure <= 0
  {
    if exposure > 0 then FormatInt(exposure) else ""
  }

  /** The exposures of one object, one per filter type in column order. */
  function RowExposures(m: map<ExposureKey, int>, objectId: int, filterTypeIds: seq<int>): (es: seq<int>)
    ensures |es| == |filterTypeIds|
  {
    seq(|filterTypeIds|, c requires 0 <= c < |filterTypeIds| => Lookup(m, (objectId, filterTypeIds[c])))
  }

  function Sum(xs: seq<int>): int {
    if xs == [] then 0 else Sum(xs[..|xs| - 1]) + xs[|xs| - 1]
  }

  /** The cells of one row between the name and the total. */
  function ExposureCells(es: seq<int>): (cells: seq<string>)
    ensures |cells| == |es|
  {
    seq(|es|, c requires 0 <= c < |es| => CellText(es[c]))
  }

  /** One table row: the name, a cell per filter type and the total, summed
      in `int`. */
  function RowCells(name: string, es: seq<int>): seq<string> {
    [name] + ExposureCells(es) + [FormatInt(Wrap32(Sum(es)))]
  }

  function Headers(filterTypeNames: seq<string>): seq<string> {
    ["Object Name"] + filterTypeNames + ["Total"]
  }

  function Ids(filterTypes: seq<FilterType>): (ids: seq<int>)
    ensures |ids| == |filterTypes|
  {
    seq(|filterTypes|, c requires 0 <= c < |filterTypes| => filterTypes[c].id)
  }

  function Names(filterTypes: seq<FilterType>): (names: seq<string>)
    ensures |names| == |filterTypes|
  {
    seq(|filterTypes|, c requires 0 <= c < |filterTypes| => filterTypes[c].name)
  }

  /** The rows laid out for the objects, in query order. */
  function TableRows(objects: seq<ObservedObject>, filterTypeIds: seq<int>, m: map<ExposureKey, int>): seq<seq<string>> {
    seq(|objects|, r requires 0 <= r < |objects| =>
      RowCells(objects[r].name, RowExposures(m, objects[r].id, filterTypeIds)))
  }

  /** Every row has the name, one cell per filter type and the total; the
      cell of object r under filter type c shows that pair's exposure. */
  lemma TableShape(objects: seq<ObservedObject>, filterTypes: seq<FilterType>, exposures: seq<ExposureRow>, r: int, c: int)
    requires 0 <= r < |objects| && 0 <= c < |filterTypes|
    ensures var row := TableRows(objects, Ids(filterTypes), ExposureMap(exposures))[r];
            |row| == |filterTypes| + 2 && |Headers(Names(filterTypes))| == |filterTypes| + 2 &&
            Headers(Names(filterTypes))[c + 1] == filterTypes[c].name &&
            row[0] == objects[r].name &&
            row[c + 1] == CellText(Lookup(ExposureMap(exposures), (objects[r].id, filterTypes[c].id)))
  {
    var ids := Ids(filterTypes);
    var m := ExposureMap(exposures);
    var es := RowExposures(m, objects[r].id, ids);
    assert ids[c] == filterTypes[c].id;
    assert es[c] == Lookup(m, (objects[r].id, filterTypes[c].id));
    var row := RowCells(objects[r].name, es);
    assert TableRows(objects, ids, m)[r] == row;
    assert ExposureCells(es)[c] == CellText(es[c]);
    assert row[c + 1] == ExposureCells(es)[c];
    assert Names(filterTypes)[c] == filterTypes[c].name;
  }

  /** What a numeric cell is worth to the reader: its number, or nothing
      for an empty cell. */
  function Shown(t: string): real {
    if IsNumber(t) then ParseNumber(t).value else 0.0
  }

  function ShownSum(cells: seq<string>): real {
    if cells == [] then 0.0 else ShownSum(cells[..|cells| - 1]) + Shown(cells[|cells| - 1])
  }

  /** A positive exposure reads back as itself, an empty cell as nothing. */
  lemma ShownCell(e: int)
    requires e >= 0
    ensures Shown(CellText(e)) == e as real
  {
    if e > 0 {
      ParseFormatInt(e);
    } else {
      BlankIsNotNumber("");
    }
  }

  lemma {:induction false} SumNonNegative(es: seq<int>)
    requires forall c :: 0 <= c < |es| ==> es[c] >= 0
    ensures Sum(es) >= 0
  {
    if es != [] {
      SumNonNegative(es[..|es| - 1]);
    }
  }

  /** With no negative exposures, the cells of a row add up to the sum of
      the exposures: the empty cells are exactly the zeros. */
  lemma {:induction false} CellsAddUp(es: seq<int>)
    requires forall c :: 0 <= c < |es| ==> es[c] >= 0
    ensures ShownSum(ExposureCells(es)) == Sum(es) as real
  {
    if es != [] {
      var n := |es| - 1;
      CellsAddUp(es[..n]);
      assert ExposureCells(es)[..n] == ExposureCells(es[..n]);
      ShownCell(es[n]);
    }
  }

  /** The row total shows the sum of the values shown in the row's cells, as
      long as no exposure is negative and the sum fits in an `int`. */
  lemma RowTotalAddsUp(name: string, es: seq<int>)
    requires forall c :: 0 <= c < |es| ==> es[c] >= 0
    requires Sum(es) < TwoTo31
    ensures var row := RowCells(name, es);
            ParseNumber(row[|row| - 1]) == Some(ShownSum(row[1..|row| - 1]))
  {
    var row := RowCells(name, es);
    assert row[1..|row| - 1] == ExposureCells(es);
    CellsAddUp(es);
    SumNonNegative(es);
    Wrap32Fits(Sum(es));
    ParseFormatInt(Sum(es));
  }

  /** The rows for one more object are the rows so far and its row. */
  lemma TableRowsSnoc(objects: seq<ObservedObject>, r: int, filterTypeIds: seq<int>, m: map<ExposureKey, int>)
    requires 0 <= r < |objects|
    ensures TableRows(objects[..r + 1], filterTypeIds, m) ==
            TableRows(objects[..r], filterTypeIds, m) + [RowCells(objects[r].name, RowExposures(m, objects[r].id, filterTypeIds))]
  {
  }

  /** The body of the row loop of refreshData: the cells of one object,
      the running total kept in an `int`. */
  method LayoutRow(objectName: string, objectId: int, filterTypeIds: seq<int>, exposureMap: map<ExposureKey, int>)
    returns (cells: seq<string>)
    ensures cells == RowCells(objectName, RowExposures(exposureMap, objectId, filterTypeIds))
  {
    var exposureCells: seq<string> := [];
    var rowTotal := 0;
    ghost var es := RowExposures(exposureMap, objectId, filterTypeIds);
    var col := 0;
    while col < |filterTypeIds|
      invariant 0 <= col <= |filterTypeIds|
      invariant exposureCells == ExposureCells(es[..col])
      invariant rowTotal == Wrap32(Sum(es[..col]))
    {
      var exposure := Lookup(exposureMap, (objectId, filterTypeIds[col]));
      assert es[..col + 1][..col] == es[..col];
      Wrap32Add(Sum(es[..col]), exposure);
      rowTotal := Wrap32(rowTotal + exposure);
      exposureCells := exposureCells + [if exposure > 0 then FormatInt(exposure) else ""];
      col := col + 1;
    }
    assert es[..col] == es;
    cells := [objectName] + exposureCells + [FormatInt(rowTotal)];
  }

  /** What the tab shows: header labels and the rows of cell texts. */
  class Tab {
    var headers: seq<string>
    var rows: seq<seq<string>>

    constructor()
      ensures headers == [] && rows == []
    {
      headers, rows := [], [];
    }

    /** ObjectStatsTab::refreshData. The table is cleared first; a failed
        query leaves it cleared with a warning, and so, without a warning,
        does an empty list of objects or of filter types. */
    method RefreshData(filterTypes: Query<FilterType>, objects: Query<ObservedObject>, exposures: Query<ExposureRow>)
      returns (warning: Option<string>)
      modifies this
      ensures filterTypes.Failed? ==>
                warning == Some("Failed to fetch filter types: " + filterTypes.error) && headers == [] && rows == []
      ensures filterTypes.Rows? && objects.Failed? ==>
                warning == Some("Failed to fetch objects: " + objects.error) && headers == [] && rows == []
      ensures filterTypes.Rows? && objects.Rows? && (filterTypes.rows == [] || objects.rows == []) ==>
                warning == None && headers == [] && rows == []
      ensures filterTypes.Rows? && objects.Rows? && filterTypes.rows != [] && objects.rows != [] && exposures.Failed? ==>
                warning == Some("Failed to fetch exposure data: " + exposures.error) && headers == [] && rows == []
      ensures filterTypes.Rows? && objects.Rows? && filterTypes.rows != [] && objects.rows != [] && exposures.Rows? ==>
                warning == None &&
                headers == Headers(Names(filterTypes.rows)) &&
                rows == TableRows(objects.rows, Ids(filterTypes.rows), ExposureMap(exposures.rows))
    {
      headers, rows := [], [];
      if filterTypes.Failed? {
        return Some("Failed to fetch filter types: " + filterTypes.error);
      }
      var filterTypeIds: seq<int> := [];
      var filterTypeNames: seq<string> := [];
      var i := 0;
      while i < |filterTypes.rows|
        invariant 0 <= i <= |filterTypes.rows|
        invariant filterTypeIds == Ids(filterTypes.rows[..i]) && filterTypeNames == Names(filterTypes.rows[..i])
      {
        filterTypeIds := filterTypeIds + [filterTypes.rows[i].id];
        filterTypeNames := filterTypeNames + [filterTypes.rows[i].name];
        i := i + 1;
      }
      assert filterTypes.rows[..i] == filterTypes.rows;
      if objects.Failed? {
        return Some("Failed to fetch objects: " + objects.error);
      }
      var objectIds: seq<int> := [];
      var objectNames: seq<string> := [];
      i := 0;
      while i < |objects.rows|
        invariant 0 <= i <= |objects.rows|
        invariant |objectIds| == |objectNames| == i
        invariant forall r :: 0 <= r < i ==> objectIds[r] == objects.rows[r].id && objectNames[r] == objects.rows[r].name
      {
        objectIds := objectIds + [objects.rows[i].id];
        objectNames := objectNames + [objects.rows[i].name];
        i := i + 1;
      }
      if |objectIds| == 0 || |filterTypeIds| == 0 {
        return None;
      }
      if exposures.Failed? {
        return Some("Failed to fetch exposure data: " + exposures.error);
      }
      warning := None;
      var exposureMap: map<ExposureKey, int> := map[];
      i := 0;
      while i < |exposures.rows|
        invariant 0 <= i <= |exposures.rows|
        invariant exposureMap == ExposureMap(exposures.rows[..i])
      {
        var e := exposures.rows[i];
        assert exposures.rows[..i + 1][..i] == exposures.rows[..i];
        exposureMap := exposureMap[(e.objectId, e.filterTypeId) := e.totalExposure];
        i := i + 1;
      }
      assert exposures.rows[..i] == exposures.rows;
      headers := ["Object Name"] + filterTypeNames + ["Total"];
      var row := 0;
      while row < |objectNames|
        invariant 0 <= row <= |objectNames|
        invariant rows == TableRows(objects.rows[..row], filterTypeIds, exposureMap)
        invariant headers == Headers(filterTypeNames)
      {
        var cells := LayoutRow(objectNames[row], objectIds[row], filterTypeIds, exposureMap);
        TableRowsSnoc(objects.rows, row, filterTypeIds, exposureMap);
        rows := rows + [cells];
        row := row + 1;
      }
      assert objects.rows[..row] == objects.rows;
    }
  }
}
