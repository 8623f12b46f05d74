/** MonthlyStatsTab::createChart: the bar chart of exposure hours per
    month. The monthly query is an input (its rows or its error); the QMap
    the rows are collected in is modelled as what it is, a list of entries
    kept in ascending key order, so that iterating over it is walking the
    list. */
module MonthlyStats {
  import opened Wrappers
  import opened Text
  import opened Numbers
  import opened Dates

  /** One row of the monthly query: strftime('%Y-%m', start_date) and the
      summed exposure seconds as `int`. */
  datatype MonthRow = MonthRow(month: string, totalSeconds: int)

  datatype Query = Rows(rows: seq<MonthRow>) | Failed(error: string)

  /** One entry of the QMap<QString, double>. */
  datatype Entry = Entry(key: string, hours: real)

  /** Seconds to hours. */
  function HoursOf(totalSeconds: int): (h: real)
    ensures h * 3600.0 == totalSeconds as real
  {
    totalSeconds as real / 3600.0
  }

  // ----- The QMap as an ordered list of entries -------------------------

  function KeySet(es: seq<Entry>): set<string> {
    if es == [] then {} else {es[0].key} + KeySet(es[1..])
  }

  /** Keys strictly ascending in QString order. */
  predicate Sorted(es: seq<Entry>) {
    es == [] || ((forall k :: k in KeySet(es[1..]) ==> LexLess(es[0].key, k)) && Sorted(es[1..]))
  }

  /** QMap::value(key) for a key that may be missing. */
  function Get(es: seq<Entry>, key: string): Option<real> {
    if es == [] then None else if es[0].key == key then Some(es[0].hours) else Get(es[1..], key)
  }

  /** `map[key] = hours`: the entry for `key` is replaced, or a new one is
      put where the order wants it. */
  function Insert(es: seq<Entry>, key: string, hours: real): seq<Entry> {
    if es == [] then [Entry(key, hours)]
    else if es[0].key == key then [Entry(key, hours)] + es[1..]
    else if LexLess(key, es[0].key) then [Entry(key, hours)] + es
    else [es[0]] + Insert(es[1..], key, hours)
  }

  lemma {:induction false} GetMissing(es: seq<Entry>, key: string)
    requires key !in KeySet(es)
    ensures Get(es, key) == None
  {
    if es != [] {
      GetMissing(es[1..], key);
    }
  }

  /** Inserting keeps the order, adds the key, maps it to the new value and
      leaves every other key's value alone. */
  lemma {:induction false} InsertSpec(es: seq<Entry>, key: string, hours: real)
    requires Sorted(es)
    ensures Sorted(Insert(es, key, hours))
    ensures KeySet(Insert(es, key, hours)) == KeySet(es) + {key}
    ensures Get(Insert(es, key, hours), key) == Some(hours)
    ensures forall other :: other != key ==> Get(Insert(es, key, hours), other) == Get(es, other)
  {
    if es == [] {
    } else if es[0].key == key {
      assert Insert(es, key, hours)[1..] == es[1..];
    } else if LexLess(key, es[0].key) {
      var r := Insert(es, key, hours);
      assert r[1..] == es;
      forall k | k in KeySet(es) ensures LexLess(key, k) {
        if k != es[0].key {
          LexLessTransitive(key, es[0].key, k);
        }
      }
    } else {
      LexLessTotal(key, es[0].key);
      InsertSpec(es[1..], key, hours);
      var r := Insert(es, key, hours);
      assert r[1..] == Insert(es[1..], key, hours);
    }
  }

  /** A key above all present keys goes at the end. */
  lemma {:induction false} InsertGreatest(es: seq<Entry>, key: string, hours: real)
    requires forall k :: k in KeySet(es) ==> LexLess(k, key)
    ensures Insert(es, key, hours) == es + [Entry(key, hours)]
  {
    if es != [] {
      LexLessIrreflexive(key);
      LexLessAsymmetric(es[0].key, key);
      InsertGreatest(es[1..], key, hours);
    }
  }

  /** The map filled from the query rows in row order. */
  function MonthlyData(rows: seq<MonthRow>): seq<Entry> {
    if rows == [] then []
    else
      var last := rows[|rows| - 1];
      Insert(MonthlyData(rows[..|rows| - 1]), last.month, HoursOf(last.totalSeconds))
  }

  function Months(rows: seq<MonthRow>): set<string> {
    set j | 0 <= j < |rows| :: rows[j].month
  }

  /** The collected map is ordered and holds exactly the months of the
      rows. */
  lemma {:induction false} MonthlyDataSpec(rows: seq<MonthRow>)
    ensures Sorted(MonthlyData(rows))
    ensures KeySet(MonthlyData(rows)) == Months(rows)
  {
    if rows != [] {
      var n := |rows| - 1;
      MonthlyDataSpec(rows[..n]);
      InsertSpec(MonthlyData(rows[..n]), rows[n].month, HoursOf(rows[n].totalSeconds));
      assert Months(rows) == Months(rows[..n]) + {rows[n].month} by {
        forall m | m in Months(rows) ensures m in Months(rows[..n]) + {rows[n].month} {
          var j :| 0 <= j < |rows| && rows[j].month == m;
          if j < n {
            assert rows[..n][j].month == m;
          }
        }
      }
    }
  }

  /** A later row for the same month overwrites an earlier one. */
  lemma {:induction false} LastRowWins(rows: seq<MonthRow>, j: int)
    requires 0 <= j < |rows|
    requires forall j' :: j < j' < |rows| ==> rows[j'].month != rows[j].month
    ensures Get(MonthlyData(rows), rows[j].month) == Some(HoursOf(rows[j].totalSeconds))
  {
    var n := |rows| - 1;
    MonthlyDataSpec(rows[..n]);
    InsertSpec(MonthlyData(rows[..n]), rows[n].month, HoursOf(rows[n].totalSeconds));
    if j < n {
      assert rows[..n][j] == rows[j];
      forall j' | j < j' < n ensures rows[..n][j'].month != rows[..n][j].month {
        assert rows[..n][j'] == rows[j'];
      }
      LastRowWins(rows[..n], j);
    }
  }

  /** A month without rows has no entry. */
  lemma MonthWithoutRows(rows: seq<MonthRow>, month: string)
    requires forall j :: 0 <= j < |rows| ==> rows[j].month != month
    ensures Get(MonthlyData(rows), month) == None
  {
    MonthlyDataSpec(rows);
    GetMissing(MonthlyData(rows), month);
  }

  /** Rows already in strictly ascending month order (as GROUP BY month
      ORDER BY month gives them) become the entries one for one. */
  lemma {:induction false} AscendingRowsKeepOrder(rows: seq<MonthRow>)
    requires forall i, j :: 0 <= i < j < |rows| ==> LexLess(rows[i].month, rows[j].month)
    ensures MonthlyData(rows) ==
            seq(|rows|, j requires 0 <= j < |rows| => Entry(rows[j].month, HoursOf(rows[j].totalSeconds)))
  {
    if rows != [] {
      var n := |rows| - 1;
      AscendingRowsKeepOrder(rows[..n]);
      MonthlyDataSpec(rows[..n]);
      forall k | k in KeySet(MonthlyData(rows[..n])) ensures LexLess(k, rows[n].month) {
        var j :| 0 <= j < n && rows[..n][j].month == k;
      }
      InsertGreatest(MonthlyData(rows[..n]), rows[n].month, HoursOf(rows[n].totalSeconds));
    }
  }

  // ----- Labels -----------------------------------------------------------

  /** QDate::toString("MM/yyyy"). */
  function FormatMonthYear(d: Date): string {
    PadZeros(NatDigits(if d.month < 0 then 0 else d.month), 2) + "/" +
    PadZeros(NatDigits(if d.year < 0 then 0 else d.year), 4)
  }

  /** The category label of a month key: "MM/yyyy" when key + "-01" is a
      valid yyyy-MM-dd date, the key itself otherwise. */
  function MonthLabel(key: string): string {
    match ParseIsoDate(key + "-01")
    case Some(d) => FormatMonthYear(d)
    case None => key
  }

  /** A key of the shape yyyy-MM naming a real month. */
  predicate IsMonthKey(key: string) {
    IsDatePattern(key + "-01") && IsValidDate(DateFields(key + "-01"))
  }

  /** Digits written back at their own width give the same text. */
  lemma PadDigitsBack(s: string)
    requires AllDigits(s) && |s| >= 1
    ensures PadZeros(NatDigits(DigitsValue(s)), |s|) == s
  {
    DigitsValueBound(s);
    NatDigitsLength(DigitsValue(s), |s|);
    NatDigitsValue(DigitsValue(s));
    var p := PadZeros(NatDigits(DigitsValue(s)), |s|);
    DigitsSameValue(p, s);
  }

  /** A valid key "yyyy-MM" is labelled "MM/yyyy" with its own digits;
      any other key is shown as it is. */
  lemma MonthLabelSpec(key: string)
    ensures IsMonthKey(key) ==> |key| == 7 && MonthLabel(key) == key[5..7] + "/" + key[..4]
    ensures !IsMonthKey(key) ==> MonthLabel(key) == key
  {
    if IsMonthKey(key) {
      var t := key + "-01";
      assert t[..4] == key[..4] && t[5..7] == key[5..7];
      PadDigitsBack(key[..4]);
      PadDigitsBack(key[5..7]);
    }
  }

  // ----- The chart ---------------------------------------------------------

  function Labels(es: seq<Entry>): (r: seq<string>)
    ensures |r| == |es|
  {
    seq(|es|, j requires 0 <= j < |es| => MonthLabel(es[j].key))
  }

  function Values(es: seq<Entry>): (r: seq<real>)
    ensures |r| == |es|
  {
    seq(|es|, j requires 0 <= j < |es| => es[j].hours)
  }

  /** The running maximum of the loop, started at 0. */
  function MaxHours(values: seq<real>): real {
    if values == [] then 0.0
    else
      var m := MaxHours(values[..|values| - 1]);
      if values[|values| - 1] > m then values[|values| - 1] else m
  }

  /** The maximum is never below 0, bounds every value, and is 0 or one of
      the values. */
  lemma {:induction false} MaxHoursSpec(values: seq<real>)
    ensures MaxHours(values) >= 0.0
    ensures forall j :: 0 <= j < |values| ==> values[j] <= MaxHours(values)
    ensures MaxHours(values) == 0.0 || exists j :: 0 <= j < |values| && values[j] == MaxHours(values)
  {
    if values != [] {
      var n := |values| - 1;
      MaxHoursSpec(values[..n]);
      assert forall j :: 0 <= j < n ==> values[j] == values[..n][j];
      if MaxHours(values) != 0.0 && MaxHours(values) != values[n] {
        var j :| 0 <= j < n && values[..n][j] == MaxHours(values[..n]);
        assert values[j] == MaxHours(values);
      }
    }
  }

  /** What createChart leaves in the view. */
  datatype Chart =
    | Warning(text: string)
    | EmptyChart(title: string)
    | BarChart(categories: seq<string>, values: seq<real>, yMin: real, yMax: real)

  function ChartOf(q: Query): Chart {
    if q.Failed? then Warning("Failed to query monthly stats: " + q.error)
    else
      var es := MonthlyData(q.rows);
      if es == [] then EmptyChart("Monthly Cumulative Exposure Time")
      else BarChart(Labels(es), Values(es), 0.0, MaxHours(Values(es)) * 1.05)
  }

  lemma LabelsSnoc(es: seq<Entry>, j: int)
    requires 0 <= j < |es|
    ensures Labels(es[..j + 1]) == Labels(es[..j]) + [MonthLabel(es[j].key)]
    ensures Values(es[..j + 1]) == Values(es[..j]) + [es[j].hours]
  {
  }

  /** MonthlyStatsTab::createChart. */
  method CreateChart(q: Query) returns (chart: Chart)
    ensures chart == ChartOf(q)
  {
    if q.Failed? {
      return Warning("Failed to query monthly stats: " + q.error);
    }
    var monthlyData: seq<Entry> := [];
    var i := 0;
    while i < |q.rows|
      invariant 0 <= i <= |q.rows|
      invariant monthlyData == MonthlyData(q.rows[..i])
    {
      assert q.rows[..i + 1][..i] == q.rows[..i];
      var month := q.rows[i].month;
      var totalHours := HoursOf(q.rows[i].totalSeconds);
      monthlyData := Insert(monthlyData, month, totalHours);
      i := i + 1;
    }
    assert q.rows[..i] == q.rows;
    if monthlyData == [] {
      return EmptyChart("Monthly Cumulative Exposure Time");
    }
    var categories: seq<string> := [];
    var barSet: seq<real> := [];
    var j := 0;
    while j < |monthlyData|
      invariant 0 <= j <= |monthlyData|
      invariant categories == Labels(monthlyData[..j]) && barSet == Values(monthlyData[..j])
    {
      LabelsSnoc(monthlyData, j);
      var monthStr := monthlyData[j].key;
      var date := ParseIsoDate(monthStr + "-01");
      if date.Some? {
        categories := categories + [FormatMonthYear(date.value)];
      } else {
        categories := categories + [monthStr];
      }
      barSet := barSet + [monthlyData[j].hours];
      j := j + 1;
    }
    assert monthlyData[..j] == monthlyData;
    var maxHours := 0.0;
    var k := 0;
    while k < |barSet|
      invariant 0 <= k <= |barSet|
      invariant maxHours == MaxHours(barSet[..k])
    {
      assert barSet[..k + 1][..k] == barSet[..k];
      if barSet[k] > maxHours {
        maxHours := barSet[k];
      }
      k := k + 1;
    }
    assert barSet[..k] == barSet;
    chart := BarChart(categories, barSet, 0.0, maxHours * 1.05);
  }

  /** One label and one bar per month, in ascending month order, the bar
      being the month's seconds in hours; the Y axis runs from 0 to 5% above
      the tallest bar, and no data gives only the titled empty chart. */
  lemma ChartSpec(rows: seq<MonthRow>)
    ensures var es := MonthlyData(rows);
            (es == [] <==> rows == []) &&
            (rows == [] ==> ChartOf(Rows(rows)) == EmptyChart("Monthly Cumulative Exposure Time")) &&
            (rows != [] ==>
              var c := ChartOf(Rows(rows));
              c.BarChart? && |c.categories| == |c.values| == |es| &&
              (forall j :: 0 <= j < |es| ==> c.categories[j] == MonthLabel(es[j].key) &&
                                             Some(c.values[j]) == Get(es, es[j].key)) &&
              c.yMin == 0.0 && c.yMax >= 0.0 &&
              forall j :: 0 <= j < |es| ==> c.values[j] * 1.05 <= c.yMax)
  {
    var es := MonthlyData(rows);
    MonthlyDataSpec(rows);
    if rows != [] {
      assert rows[0].month in KeySet(es);
    }
    if rows == [] {
      assert KeySet(es) == {};
    }
    MaxHoursSpec(Values(es));
    forall j | 0 <= j < |es| ensures Get(es, es[j].key) == Some(es[j].hours) {
      SortedGet(es, j);
    }
  }

  /** In an ordered list each key appears once, so looking up an entry's key
      finds that entry. */
  lemma {:induction false} SortedGet(es: seq<Entry>, j: int)
    requires Sorted(es) && 0 <= j < |es|
    ensures Get(es, es[j].key) == Some(es[j].hours)
  {
    if j > 0 {
      KeyInSet(es[1..], j - 1);
      LexLessIrreflexive(es[0].key);
      SortedGet(es[1..], j - 1);
    }
  }

  lemma {:induction false} KeyInSet(es: seq<Entry>, j: int)
    requires 0 <= j < |es|
    ensures es[j].key in KeySet(es)
  {
    if j > 0 {
      KeyInSet(es[1..], j - 1);
    }
  }
}
