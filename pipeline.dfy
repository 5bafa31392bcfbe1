/** One prediction request as a pure function of the dataset: the menu check,
    the monthly aggregate, the forecast of next month's units, the ingredient
    requirements, and the dataset with the forecast row appended and projected
    onto the output columns. */
module Pipeline {
  import opened Results
  import opened Calendar
  import opened Aggregation
  import opened Estimation

  /** The dataset: its header and its rows. */
  datatype Table = Table(columns: seq<string>, rows: seq<Row>)

  /** What a successful request reports: the item, the predicted units, the
      amount of every ingredient, and the forecast month. */
  datatype Forecast = Forecast(menu: string, unitsSold: int, ingredients: map<string, int>, year: int, month: int)

  /** A successful request: its report and the dataset it leaves behind. */
  datatype Prediction = Prediction(forecast: Forecast, table: Table)

  /** The menu items that have a trained model. */
  const MenuItems: seq<string> := ["Americano", "Garlic Fries"]

  /** The category written into a forecast row. */
  function Category(menu: string): string {
    if menu == "Americano" then "Coffee" else "Food"
  }

  /** The header the dataset is saved with: the four identifier columns, then
      the ingredient columns. */
  function RequiredColumns(ings: seq<string>): seq<string> {
    ["Date", "Item Name", "Category Name", "Item Sold"] + ings
  }

  /** A row restricted to the output columns. */
  function ProjectRow(r: Row, ings: seq<string>): Row {
    r.(quantities := map c | c in r.quantities && c in ings :: r.quantities[c])
  }

  function ProjectRows(rows: seq<Row>, ings: seq<string>): seq<Row> {
    seq(|rows|, i requires 0 <= i < |rows| => ProjectRow(rows[i], ings))
  }

  /** The forecast row. */
  function NewEntry(date: Date, menu: string, units: int, ings: seq<string>, reqs: map<string, int>): Row
    requires forall c :: c in ings ==> c in reqs
  {
    Row(date, menu, Category(menu), units as real, map c | c in ings :: reqs[c] as real)
  }

  /** Builds the forecast row: the identifier cells first, then one cell per
      ingredient. */
  method BuildEntry(date: Date, menu: string, units: int, ings: seq<string>, reqs: map<string, int>)
    returns (entry: Row)
    requires forall c :: c in ings ==> c in reqs
    ensures entry == NewEntry(date, menu, units, ings, reqs)
  {
    entry := Row(date, menu, Category(menu), units as real, map[]);
    var k := 0;
    while k < |ings|
      invariant 0 <= k <= |ings|
      invariant entry == Row(date, menu, Category(menu), units as real, map c | c in ings[..k] :: reqs[c] as real)
    {
      var c := ings[k];
      entry := entry.(quantities := entry.quantities[c := reqs[c] as real]);
      assert ings[..k + 1] == ings[..k] + [c];
      k := k + 1;
    }
    assert ings[..k] == ings;
  }

  /** The prediction request on a freshly loaded dataset t, with the trained
      model given as a function from the item and its latest month's units
      to the predicted units. */
  function PredictOutcome(t: Table, menu: string, model: (string, real) -> int): Result<Prediction> {
    if menu !in MenuItems then Failure(UnknownMenuItem)
    else ForecastFrom(t, menu, model, MonthlyTotals(t.rows, menu, Ingredients(t.columns)))
  }

  /** The request once the item's monthly aggregate is known. */
  function ForecastFrom(t: Table, menu: string, model: (string, real) -> int, totals: seq<MonthTotal>): Result<Prediction> {
    var ings := Ingredients(t.columns);
    if |totals| == 0 then Failure(NoHistoricalData)
    else
      var latest := totals[|totals| - 1];
      var units := model(menu, latest.itemSold);
      var reqs := Requirements(PerUnitFrame(totals, ings), ings, units);
      if reqs.Failure? then Failure(reqs.error)
      else
        var next := NextMonth(latest.month);
        var entry := NewEntry(LastDayOfMonth(next.year, next.month), menu, units, ings, reqs.value);
        Success(Prediction(
          Forecast(menu, units, reqs.value, next.year, next.month),
          Table(RequiredColumns(ings), ProjectRows(t.rows, ings) + [entry])))
  }

  /** Every row has a date with a valid month, as parsed dates do. */
  predicate ValidDates(rows: seq<Row>) {
    forall x :: x in rows ==> ValidDate(x.date)
  }

  /** A request fails with UnknownMenuItem exactly for a menu without a
      model, and with NoHistoricalData exactly when the item has no row. */
  lemma PredictErrors(t: Table, menu: string, model: (string, real) -> int)
    ensures PredictOutcome(t, menu, model) == Failure(UnknownMenuItem) <==> menu !in MenuItems
    ensures PredictOutcome(t, menu, model) == Failure(NoHistoricalData) <==>
              menu in MenuItems && forall x :: x in t.rows ==> x.itemName != menu
  {
    var ings := Ingredients(t.columns);
    MonthlyTotalsCorrect(t.rows, menu, ings);
    if forall x :: x in t.rows ==> x.itemName != menu {
      assert ItemMonths(t.rows, menu) == {};
    } else {
      var x :| x in t.rows && x.itemName == menu;
      assert MonthOf(x.date) in ItemMonths(t.rows, menu);
    }
  }

  /** A successful request appends exactly one row and keeps every earlier
      row, in order, restricted to the output columns. The new row is the
      item's forecast: its category, the predicted units, every ingredient's
      amount, and the last day of the forecast month, which is also the month
      reported. Every amount is non-negative and the amounts are keyed by
      exactly the ingredient columns. */
  lemma SuccessfulPredictAppendsForecastRow(t: Table, menu: string, model: (string, real) -> int)
    requires PredictOutcome(t, menu, model).Success?
    ensures var p := PredictOutcome(t, menu, model).value;
            var ings := Ingredients(t.columns);
            var f := p.forecast;
            && f.menu == menu
            && p.table.columns == ["Date", "Item Name", "Category Name", "Item Sold"] + ings
            && |p.table.rows| == |t.rows| + 1
            && (forall i :: 0 <= i < |t.rows| ==> p.table.rows[i] == ProjectRow(t.rows[i], ings))
            && f.ingredients.Keys == (set c | c in ings)
            && (forall c :: c in f.ingredients ==> f.ingredients[c] >= 0)
            && 1 <= f.month <= 12
            && var e := p.table.rows[|t.rows|];
               && e.itemName == menu
               && e.categoryName == (if menu == "Americano" then "Coffee" else "Food")
               && e.itemSold == f.unitsSold as real
               && e.date == LastDayOfMonth(f.year, f.month)
               && e.quantities.Keys == (set c | c in ings)
               && (forall c :: c in ings ==> e.quantities[c] == f.ingredients[c] as real)
  {
  }

  /** The units are the model's forecast from the units of the latest month of
      the item, and every amount is the rounded, clamped product of those units
      and the mean of that ingredient's per-unit column. With a plain header
      that column is the ingredient's monthly ratio. */
  lemma PredictRequirementsFromMeanRatios(t: Table, menu: string, model: (string, real) -> int)
    requires PredictOutcome(t, menu, model).Success?
    ensures var f := PredictOutcome(t, menu, model).value.forecast;
            var ings := Ingredients(t.columns);
            var totals := MonthlyTotals(t.rows, menu, ings);
            && |totals| > 0
            && f.unitsSold == model(menu, totals[|totals| - 1].itemSold)
            && (forall c :: c in ings ==>
                 var mean := MeanRatio(PerUnitFrame(totals, ings)[PerPortionColumn(c)]);
                 mean.Success? && f.ingredients[c] == ClampAtZero(RoundHalfEven(Scaled(f.unitsSold, mean.value))))
            && (PlainHeader(ings) ==>
                 forall c :: c in ings ==> PerUnitFrame(totals, ings)[PerPortionColumn(c)] == RatioColumn(totals, c))
  {
    var ings := Ingredients(t.columns);
    var totals := MonthlyTotals(t.rows, menu, ings);
    PredictForecastParts(t, menu, model);
    var f := PredictOutcome(t, menu, model).value.forecast;
    RequirementsValues(PerUnitFrame(totals, ings), ings, f.unitsSold);
    if PlainHeader(ings) {
      PlainHeaderRatios(totals, ings);
    }
  }

  /** The reported units and amounts of a successful request. */
  lemma PredictForecastParts(t: Table, menu: string, model: (string, real) -> int)
    requires PredictOutcome(t, menu, model).Success?
    ensures var f := PredictOutcome(t, menu, model).value.forecast;
            var ings := Ingredients(t.columns);
            var totals := MonthlyTotals(t.rows, menu, ings);
            && |totals| > 0
            && f.unitsSold == model(menu, totals[|totals| - 1].itemSold)
            && Requirements(PerUnitFrame(totals, ings), ings, f.unitsSold) == Success(f.ingredients)
  {
    var totals := MonthlyTotals(t.rows, menu, Ingredients(t.columns));
    assert PredictOutcome(t, menu, model) == ForecastFrom(t, menu, model, totals);
    ForecastFromParts(t, menu, model, totals);
  }

  lemma ForecastFromParts(t: Table, menu: string, model: (string, real) -> int, totals: seq<MonthTotal>)
    requires ForecastFrom(t, menu, model, totals).Success?
    ensures var f := ForecastFrom(t, menu, model, totals).value.forecast;
            var ings := Ingredients(t.columns);
            && |totals| > 0
            && f.unitsSold == model(menu, totals[|totals| - 1].itemSold)
            && Requirements(PerUnitFrame(totals, ings), ings, f.unitsSold) == Success(f.ingredients)
  {
  }

  /** The month of the last aggregate row is the latest month of the item. */
  lemma LatestTotalIsLatestMonth(rows: seq<Row>, menu: string, ings: seq<string>)
    requires |MonthlyTotals(rows, menu, ings)| > 0
    ensures var totals := MonthlyTotals(rows, menu, ings);
            var latest := totals[|totals| - 1].month;
            && latest in ItemMonths(rows, menu)
            && forall m :: m in ItemMonths(rows, menu) ==> m == latest || Before(m, latest)
  {
    var totals := MonthlyTotals(rows, menu, ings);
    MonthlyTotalsCorrect(rows, menu, ings);
    var n := |totals|;
    var latest := totals[n - 1].month;
    assert latest in (set i | 0 <= i < n :: totals[i].month);
    forall m | m in ItemMonths(rows, menu) ensures m == latest || Before(m, latest) {
      assert m in (set i | 0 <= i < n :: totals[i].month);
      var i :| 0 <= i < n && totals[i].month == m;
      if i < n - 1 {
        assert Before(totals[i].month, totals[n - 1].month);
      }
    }
  }

  /** The forecast month is the month right after the latest month in which
      the item has rows, whatever the order of the rows. */
  lemma ForecastFollowsLatestMonth(t: Table, menu: string, model: (string, real) -> int)
    requires PredictOutcome(t, menu, model).Success?
    ensures var f := PredictOutcome(t, menu, model).value.forecast;
            exists latest :: latest in ItemMonths(t.rows, menu)
              && (forall m :: m in ItemMonths(t.rows, menu) ==> m == latest || Before(m, latest))
              && YearMonth(f.year, f.month) == NextMonth(latest)
  {
    var ings := Ingredients(t.columns);
    var totals := MonthlyTotals(t.rows, menu, ings);
    LatestTotalIsLatestMonth(t.rows, menu, ings);
    var latest := totals[|totals| - 1].month;
    assert latest in ItemMonths(t.rows, menu);
  }

  /** The saved header has the same ingredient columns as the loaded one. */
  lemma RequiredColumnsKeepIngredients(columns: seq<string>)
    ensures Ingredients(RequiredColumns(Ingredients(columns))) == Ingredients(columns)
  {
    var ings := Ingredients(columns);
    var h := RequiredColumns(ings);
    assert h[1..][1..][1..][1..] == ings;
    calc {
      Ingredients(h);
      Ingredients(h[1..]);
      Ingredients(h[1..][1..]);
      Ingredients(h[1..][1..][1..]);
      Ingredients(h[1..][1..][1..][1..]);
    }
    IngredientsOfIngredients(ings);
  }

  /** A row of the item dated in the month after its latest month, appended
      to the projected rows, adds exactly its own total to the aggregate. */
  lemma AppendNextMonthRow(rows: seq<Row>, menu: string, ings: seq<string>, entry: Row)
    requires ValidDates(rows)
    requires entry.itemName == menu
    requires |MonthlyTotals(rows, menu, ings)| > 0
    requires MonthOf(entry.date)
             == NextMonth(MonthlyTotals(rows, menu, ings)[|MonthlyTotals(rows, menu, ings)| - 1].month)
    ensures MonthlyTotals(ProjectRows(rows, ings) + [entry], menu, ings)
         == MonthlyTotals(rows, menu, ings)
            + [MonthTotal(MonthOf(entry.date), entry.itemSold, map c | c in ings :: Cell(entry.quantities, c))]
  {
    var totals := MonthlyTotals(rows, menu, ings);
    LatestTotalIsLatestMonth(rows, menu, ings);
    var latest := totals[|totals| - 1].month;
    var x :| x in rows && x.itemName == menu && MonthOf(x.date) == latest;
    assert ValidMonth(latest);
    NextMonthIsSuccessor(latest, latest);
    var proj := ProjectRows(rows, ings);
    ItemMonthsOfProjection(rows, menu, ings);
    AppendRowOfLaterMonth(proj, menu, ings, entry);
    ProjectionKeepsTotals(rows, menu, ings);
  }

  /** The parts of a successful request: the forecast month follows the
      month of the last aggregate row, and the saved rows are the projected
      rows followed by the forecast row. */
  lemma PredictShape(t: Table, menu: string, model: (string, real) -> int)
    requires PredictOutcome(t, menu, model).Success?
    ensures var p := PredictOutcome(t, menu, model).value;
            var ings := Ingredients(t.columns);
            var totals := MonthlyTotals(t.rows, menu, ings);
            var f := p.forecast;
            && |totals| > 0
            && YearMonth(f.year, f.month) == NextMonth(totals[|totals| - 1].month)
            && (forall c :: c in ings ==> c in f.ingredients)
            && p.table.columns == RequiredColumns(ings)
            && p.table.rows == ProjectRows(t.rows, ings)
                               + [NewEntry(LastDayOfMonth(f.year, f.month), menu, f.unitsSold, ings, f.ingredients)]
  {
    PredictForecastParts(t, menu, model);
    PredictValue(t, menu, model);
    var f := PredictOutcome(t, menu, model).value.forecast;
    assert f.ingredients.Keys == (set c | c in Ingredients(t.columns));
  }

  lemma PredictValue(t: Table, menu: string, model: (string, real) -> int)
    requires PredictOutcome(t, menu, model).Success?
    ensures var p := PredictOutcome(t, menu, model).value;
            var ings := Ingredients(t.columns);
            var totals := MonthlyTotals(t.rows, menu, ings);
            var f := p.forecast;
            && |totals| > 0
            && p == Prediction(
                 Forecast(menu, f.unitsSold, f.ingredients, NextMonth(totals[|totals| - 1].month).year,
                          NextMonth(totals[|totals| - 1].month).month),
                 Table(RequiredColumns(ings), ProjectRows(t.rows, ings)
                   + [NewEntry(LastDayOfMonth(f.year, f.month), menu, f.unitsSold, ings, f.ingredients)]))
  {
    var totals := MonthlyTotals(t.rows, menu, Ingredients(t.columns));
    assert PredictOutcome(t, menu, model) == ForecastFrom(t, menu, model, totals);
    ForecastFromValue(t, menu, model, totals);
  }

  lemma ForecastFromValue(t: Table, menu: string, model: (string, real) -> int, totals: seq<MonthTotal>)
    requires ForecastFrom(t, menu, model, totals).Success?
    ensures var p := ForecastFrom(t, menu, model, totals).value;
            var ings := Ingredients(t.columns);
            var f := p.forecast;
            && |totals| > 0
            && p == Prediction(
                 Forecast(menu, f.unitsSold, f.ingredients, NextMonth(totals[|totals| - 1].month).year,
                          NextMonth(totals[|totals| - 1].month).month),
                 Table(RequiredColumns(ings), ProjectRows(t.rows, ings)
                   + [NewEntry(LastDayOfMonth(f.year, f.month), menu, f.unitsSold, ings, f.ingredients)]))
  {
  }

  lemma EntryCells(date: Date, menu: string, units: int, ings: seq<string>, reqs: map<string, int>)
    requires forall c :: c in ings ==> c in reqs
    ensures (map c | c in ings :: Cell(NewEntry(date, menu, units, ings, reqs).quantities, c))
         == (map c | c in ings :: reqs[c] as real)
  {
  }

  /** Loaded again, the dataset a successful request leaves behind aggregates
      to the old monthly aggregate of the item followed by exactly one month:
      the forecast month, with the predicted units and amounts. */
  lemma ForecastExtendsHistory(t: Table, menu: string, model: (string, real) -> int)
    requires PredictOutcome(t, menu, model).Success?
    requires ValidDates(t.rows)
    ensures var p := PredictOutcome(t, menu, model).value;
            var ings := Ingredients(t.columns);
            var f := p.forecast;
            && Ingredients(p.table.columns) == ings
            && MonthlyTotals(p.table.rows, menu, ings)
               == MonthlyTotals(t.rows, menu, ings)
                  + [MonthTotal(YearMonth(f.year, f.month), f.unitsSold as real,
                                map c | c in ings :: f.ingredients[c] as real)]
  {
    var p := PredictOutcome(t, menu, model).value;
    var ings := Ingredients(t.columns);
    var f := p.forecast;
    PredictShape(t, menu, model);
    RequiredColumnsKeepIngredients(t.columns);
    var entry := NewEntry(LastDayOfMonth(f.year, f.month), menu, f.unitsSold, ings, f.ingredients);
    AppendNextMonthRow(t.rows, menu, ings, entry);
    EntryCells(LastDayOfMonth(f.year, f.month), menu, f.unitsSold, ings, f.ingredients);
  }

  /** A request for one item leaves the monthly aggregate of every other item
      as it was. */
  lemma PredictKeepsOtherItems(t: Table, menu: string, other: string, model: (string, real) -> int)
    requires PredictOutcome(t, menu, model).Success?
    requires other != menu
    ensures var p := PredictOutcome(t, menu, model).value;
            var ings := Ingredients(t.columns);
            MonthlyTotals(p.table.rows, other, ings) == MonthlyTotals(t.rows, other, ings)
  {
    var p := PredictOutcome(t, menu, model).value;
    var ings := Ingredients(t.columns);
    var proj := ProjectRows(t.rows, ings);
    var entry := p.table.rows[|t.rows|];
    assert p.table.rows == proj + [entry];
    AppendRowOfOtherItem(proj, other, ings, entry);
    ProjectionKeepsTotals(t.rows, other, ings);
  }

  /** Every date of the saved dataset is a calendar date when every loaded one is. */
  lemma PredictKeepsValidDates(t: Table, menu: string, model: (string, real) -> int)
    requires PredictOutcome(t, menu, model).Success?
    requires ValidDates(t.rows)
    ensures ValidDates(PredictOutcome(t, menu, model).value.table.rows)
  {
    var p := PredictOutcome(t, menu, model).value;
    var ings := Ingredients(t.columns);
    PredictShape(t, menu, model);
    forall y | y in p.table.rows ensures ValidDate(y.date) {
      var i :| 0 <= i < |p.table.rows| && p.table.rows[i] == y;
      if i < |t.rows| {
        assert t.rows[i] in t.rows;
      }
    }
  }

  lemma ProjectRowsAppend(rows: seq<Row>, x: Row, ings: seq<string>)
    ensures ProjectRows(rows + [x], ings) == ProjectRows(rows, ings) + [ProjectRow(x, ings)]
  {
  }

  lemma {:induction false} SelectItemOfProjection(rows: seq<Row>, menu: string, ings: seq<string>)
    ensures SelectItem(ProjectRows(rows, ings), menu) == ProjectRows(SelectItem(rows, menu), ings)
  {
    if rows != [] {
      var init := rows[..|rows| - 1];
      var last := rows[|rows| - 1];
      assert rows == init + [last];
      SelectItemOfProjection(init, menu, ings);
      ProjectRowsAppend(init, last, ings);
      SelectItemAppend(ProjectRows(init, ings), menu, ProjectRow(last, ings));
      SelectItemAppend(init, menu, last);
      ProjectRowsAppend(SelectItem(init, menu), last, ings);
    }
  }

  lemma {:induction false} GroupSumOfProjection(rows: seq<Row>, ym: YearMonth, col: Column, ings: seq<string>)
    requires col.Ingredient? ==> col.name in ings
    ensures GroupSum(ProjectRows(rows, ings), ym, col) == GroupSum(rows, ym, col)
  {
    if rows != [] {
      var init := rows[..|rows| - 1];
      GroupSumOfProjection(init, ym, col, ings);
      assert ProjectRows(rows, ings)[..|rows| - 1] == ProjectRows(init, ings);
    }
  }

  lemma GroupTotalOfProjection(sel: seq<Row>, ym: YearMonth, ings: seq<string>)
    ensures GroupTotal(ProjectRows(sel, ings), ym, ings) == GroupTotal(sel, ym, ings)
  {
    GroupSumOfProjection(sel, ym, ItemSold, ings);
    forall c | c in ings
      ensures GroupSum(ProjectRows(sel, ings), ym, Ingredient(c)) == GroupSum(sel, ym, Ingredient(c))
    {
      GroupSumOfProjection(sel, ym, Ingredient(c), ings);
    }
  }

  /** Restricting the rows to the output columns leaves every item's monthly
      aggregate as it was. */
  lemma ProjectionKeepsTotals(rows: seq<Row>, menu: string, ings: seq<string>)
    ensures MonthlyTotals(ProjectRows(rows, ings), menu, ings) == MonthlyTotals(rows, menu, ings)
  {
    SelectItemOfProjection(rows, menu, ings);
    var sel := SelectItem(rows, menu);
    var psel := ProjectRows(sel, ings);
    assert RowMonths(psel) == RowMonths(sel);
    var ks := SortedMonths(RowMonths(sel));
    var a := MonthlyTotals(ProjectRows(rows, ings), menu, ings);
    var b := MonthlyTotals(rows, menu, ings);
    assert |a| == |ks| == |b|;
    forall i | 0 <= i < |ks| ensures a[i] == b[i] {
      GroupTotalOfProjection(sel, ks[i], ings);
    }
  }

  lemma ItemMonthsOfProjection(rows: seq<Row>, menu: string, ings: seq<string>)
    ensures ItemMonths(ProjectRows(rows, ings), menu) == ItemMonths(rows, menu)
  {
    var ps := ProjectRows(rows, ings);
    forall m ensures m in ItemMonths(ps, menu) <==> m in ItemMonths(rows, menu) {
      if m in ItemMonths(ps, menu) {
        var x :| x in ps && x.itemName == menu && MonthOf(x.date) == m;
        var i :| 0 <= i < |ps| && ps[i] == x;
        assert rows[i] in rows;
      }
      if m in ItemMonths(rows, menu) {
        var x :| x in rows && x.itemName == menu && MonthOf(x.date) == m;
        var i :| 0 <= i < |rows| && rows[i] == x;
        assert ps[i] in ps;
      }
    }
  }

  /** A defined mean stays defined when a ratio that is not infinite joins it. */
  lemma MeanRatioAppend(rs: seq<Ratio>, x: Ratio)
    requires MeanRatio(rs).Success?
    requires !x.Unbounded?
    ensures MeanRatio(rs + [x]).Success?
  {
    var i :| 0 <= i < |rs| && rs[i].Finite?;
    assert (rs + [x])[i] == rs[i];
    forall j | 0 <= j < |rs + [x]| ensures !(rs + [x])[j].Unbounded? {
      if j < |rs| {
        assert (rs + [x])[j] == rs[j];
      }
    }
  }

  /** A zero forecast asks for zero of every ingredient. */
  lemma ZeroUnitsNeedNothing(mean: real)
    ensures ClampAtZero(RoundHalfEven(Scaled(0, mean))) == 0
  {
    assert Scaled(0, mean) == 0.0;
  }

  /** A request succeeds once the item has history and the mean of every
      ingredient's per-unit column is defined. */
  lemma PredictSucceedsOnDefinedMeans(t: Table, menu: string, model: (string, real) -> int)
    requires menu in MenuItems
    requires |MonthlyTotals(t.rows, menu, Ingredients(t.columns))| > 0
    requires forall c :: c in Ingredients(t.columns) ==>
               MeanRatio(PerUnitFrame(MonthlyTotals(t.rows, menu, Ingredients(t.columns)), Ingredients(t.columns))[PerPortionColumn(c)]).Success?
    ensures PredictOutcome(t, menu, model).Success?
  {
  }

  /** The forecast month keeps every per-unit mean defined: its cells are
      never infinite, because a forecast of zero units asks for zero of
      every ingredient. */
  lemma ForecastTotalKeepsMeans(totals: seq<MonthTotal>, ings: seq<string>, units: int, reqs: map<string, int>, ym: YearMonth)
    requires forall c :: c in ings ==> c in reqs
    requires forall c :: c in ings ==> MeanRatio(PerUnitFrame(totals, ings)[PerPortionColumn(c)]).Success?
    requires units == 0 ==> forall c :: c in ings ==> reqs[c] == 0
    ensures var nt := MonthTotal(ym, units as real, map c | c in ings :: reqs[c] as real);
            forall c :: c in ings ==> MeanRatio(PerUnitFrame(totals + [nt], ings)[PerPortionColumn(c)]).Success?
  {
    var nt := MonthTotal(ym, units as real, map c | c in ings :: reqs[c] as real);
    FrameAfterAppend(totals, nt, ings, |ings|);
    SingleMonthFrame(nt, ings, |ings|);
    var before := PerUnitFrame(totals, ings);
    var after := PerUnitFrame(totals + [nt], ings);
    var single := FrameAfter([nt], ings, |ings|);
    forall c | c in ings ensures MeanRatio(after[PerPortionColumn(c)]).Success? {
      var p := PerPortionColumn(c);
      assert after[p] == before[p] + [single[p][0]];
      MeanRatioAppend(before[p], single[p][0]);
    }
  }

  /** A request repeated on the dataset the previous one saved succeeds, for
      any forecast, and forecasts the month after the previous forecast: the
      forecast row never makes a ratio infinite, since a zero forecast asks
      for zero of every ingredient. */
  lemma RepeatedPredictAdvancesOneMonth(t: Table, menu: string, model: (string, real) -> int, model2: (string, real) -> int)
    requires PredictOutcome(t, menu, model).Success?
    requires ValidDates(t.rows)
    ensures var p := PredictOutcome(t, menu, model).value;
            var again := PredictOutcome(p.table, menu, model2);
            && again.Success?
            && YearMonth(again.value.forecast.year, again.value.forecast.month)
               == NextMonth(YearMonth(p.forecast.year, p.forecast.month))
  {
    var p := PredictOutcome(t, menu, model).value;
    var f := p.forecast;
    var ings := Ingredients(t.columns);
    ForecastExtendsHistory(t, menu, model);
    PredictRequirementsFromMeanRatios(t, menu, model);
    var totals := MonthlyTotals(t.rows, menu, ings);
    if f.unitsSold == 0 {
      forall c | c in ings ensures f.ingredients[c] == 0 {
        ZeroUnitsNeedNothing(MeanRatio(PerUnitFrame(totals, ings)[PerPortionColumn(c)]).value);
      }
    }
    ForecastTotalKeepsMeans(totals, ings, f.unitsSold, f.ingredients, YearMonth(f.year, f.month));
    var nt := MonthTotal(YearMonth(f.year, f.month), f.unitsSold as real, map c | c in ings :: f.ingredients[c] as real);
    assert MonthlyTotals(p.table.rows, menu, ings) == totals + [nt];
    PredictSucceedsOnDefinedMeans(p.table, menu, model2);
    PredictShape(p.table, menu, model2);
  }
}
