/** The monthly aggregator: keep the rows of one menu item, bucket them by
    calendar month, and sum every numeric column per month. */
module Aggregation {
  import opened Calendar

  /** One sales row. The numeric columns other than Item Sold are the
      ingredient quantities, keyed by column name; a cell that is absent
      (NaN in the spreadsheet) counts as zero in a sum. */
  datatype Row = Row(
    date: Date,
    itemName: string,
    categoryName: string,
    itemSold: real,
    quantities: map<string, real>)

  /** One row of the monthly aggregate. */
  datatype MonthTotal = MonthTotal(month: YearMonth, itemSold: real, quantities: map<string, real>)

  /** A numeric column: the units sold, or one ingredient. */
  datatype Column = ItemSold | Ingredient(name: string)

  /** The columns that are not ingredient quantities. */
  const IdentifierColumns: set<string> := {"Date", "Month", "Item Name", "Category Name", "Item Sold"}

  /** The ingredient columns of a header, in header order: every column that
      is not an identifier column. */
  function Ingredients(columns: seq<string>): (ings: seq<string>)
    ensures forall c :: c in ings <==> c in columns && c !in IdentifierColumns
    ensures |ings| <= |columns|
  {
    if columns == [] then []
    else if columns[0] in IdentifierColumns then Ingredients(columns[1..])
    else [columns[0]] + Ingredients(columns[1..])
  }

  /** Discovery drops no repeated column: every non-identifier column occurs
      among the ingredients exactly as often as in the header. */
  lemma {:induction false} IngredientsMultiplicity(columns: seq<string>)
    ensures forall c :: multiset(Ingredients(columns))[c] == if c in IdentifierColumns then 0 else multiset(columns)[c]
  {
    if columns != [] {
      assert columns == [columns[0]] + columns[1..];
      IngredientsMultiplicity(columns[1..]);
    }
  }

  /** Discovery keeps header order: the ingredients of two header parts are
      the ingredients of the first followed by those of the second. */
  lemma {:induction false} IngredientsOfConcat(a: seq<string>, b: seq<string>)
    ensures Ingredients(a + b) == Ingredients(a) + Ingredients(b)
  {
    if a == [] {
      assert a + b == b;
    } else {
      assert a == [a[0]] + a[1..];
      assert a + b == [a[0]] + (a[1..] + b);
      IngredientsOfConcat(a[1..], b);
      IngredientsConsConcat(a[0], a[1..], b);
    }
  }

  /** The step of IngredientsOfConcat: one more column in front of the first part. */
  lemma IngredientsConsConcat(h: string, t: seq<string>, b: seq<string>)
    requires Ingredients(t + b) == Ingredients(t) + Ingredients(b)
    ensures Ingredients([h] + (t + b)) == Ingredients([h] + t) + Ingredients(b)
  {
    IngredientsCons(h, t);
    IngredientsCons(h, t + b);
    if h !in IdentifierColumns {
      SeqConsAssoc(h, Ingredients(t), Ingredients(b));
    }
  }

  lemma SeqConsAssoc(h: string, x: seq<string>, y: seq<string>)
    ensures [h] + (x + y) == ([h] + x) + y
  {
  }

  lemma IngredientsCons(h: string, t: seq<string>)
    ensures Ingredients([h] + t) == if h in IdentifierColumns then Ingredients(t) else [h] + Ingredients(t)
  {
    assert ([h] + t)[1..] == t;
  }

  /** A header made of ingredient columns only keeps all of them. */
  lemma {:induction false} IngredientsOfIngredients(columns: seq<string>)
    requires forall c :: c in columns ==> c !in IdentifierColumns
    ensures Ingredients(columns) == columns
  {
    if columns != [] {
      IngredientsOfIngredients(columns[1..]);
    }
  }

  function Cell(q: map<string, real>, c: string): real {
    if c in q then q[c] else 0.0
  }

  function Value(r: Row, col: Column): real {
    match col
    case ItemSold => r.itemSold
    case Ingredient(c) => Cell(r.quantities, c)
  }

  function MonthOf(d: Date): YearMonth {
    YearMonth(d.year, d.month)
  }

  /** The rows of one menu item, in their original order. */
  function SelectItem(rows: seq<Row>, menu: string): (sel: seq<Row>)
    ensures forall x :: x in sel <==> x in rows && x.itemName == menu
    ensures |sel| <= |rows|
  {
    if rows == [] then []
    else
      var init := rows[..|rows| - 1];
      var last := rows[|rows| - 1];
      assert rows == init + [last];
      if last.itemName == menu then SelectItem(init, menu) + [last] else SelectItem(init, menu)
  }

  /** Filtering drops no duplicate: every row of the item occurs in the
      selection exactly as often as in the sheet, and no other row occurs. */
  lemma {:induction false} SelectItemMultiplicity(rows: seq<Row>, menu: string)
    ensures forall x :: multiset(SelectItem(rows, menu))[x] == if x.itemName == menu then multiset(rows)[x] else 0
  {
    if rows != [] {
      var init := rows[..|rows| - 1];
      assert rows == init + [rows[|rows| - 1]];
      SelectItemMultiplicity(init, menu);
    }
  }

  /** Group step: the sum of a column over the rows that fall in month ym. */
  function GroupSum(rows: seq<Row>, ym: YearMonth, col: Column): real {
    if rows == [] then 0.0
    else
      var last := rows[|rows| - 1];
      GroupSum(rows[..|rows| - 1], ym, col) + (if MonthOf(last.date) == ym then Value(last, col) else 0.0)
  }

  /** Reference sum over the raw rows: a column summed over the rows of one
      menu item in one month. */
  function ItemMonthSum(rows: seq<Row>, menu: string, ym: YearMonth, col: Column): real {
    if rows == [] then 0.0
    else
      var last := rows[|rows| - 1];
      ItemMonthSum(rows[..|rows| - 1], menu, ym, col)
        + (if last.itemName == menu && MonthOf(last.date) == ym then Value(last, col) else 0.0)
  }

  lemma GroupSumAppend(rows: seq<Row>, x: Row, ym: YearMonth, col: Column)
    ensures GroupSum(rows + [x], ym, col)
         == GroupSum(rows, ym, col) + (if MonthOf(x.date) == ym then Value(x, col) else 0.0)
  {
    assert (rows + [x])[..|rows|] == rows;
  }

  /** Filtering by item and then summing a month gives the reference sum:
      rows of other items contribute nothing. */
  lemma {:induction false} SelectThenGroup(rows: seq<Row>, menu: string, ym: YearMonth, col: Column)
    ensures GroupSum(SelectItem(rows, menu), ym, col) == ItemMonthSum(rows, menu, ym, col)
  {
    if rows != [] {
      var init := rows[..|rows| - 1];
      var last := rows[|rows| - 1];
      SelectThenGroup(init, menu, ym, col);
      if last.itemName == menu {
        GroupSumAppend(SelectItem(init, menu), last, ym, col);
      }
    }
  }

  /** The months of the rows, one per row. */
  function RowMonths(rows: seq<Row>): (ms: seq<YearMonth>)
    ensures |ms| == |rows|
    ensures forall i :: 0 <= i < |rows| ==> ms[i] == MonthOf(rows[i].date)
  {
    seq(|rows|, i requires 0 <= i < |rows| => MonthOf(rows[i].date))
  }

  /** The distinct months in which a menu item has rows. */
  function ItemMonths(rows: seq<Row>, menu: string): set<YearMonth> {
    set x | x in rows && x.itemName == menu :: MonthOf(x.date)
  }

  predicate StrictlyIncreasing(ks: seq<YearMonth>) {
    forall i, j :: 0 <= i < j < |ks| ==> Before(ks[i], ks[j])
  }

  /** Inserts a month into a strictly increasing sequence of months, unless it
      is already there. */
  function InsertMonth(ks: seq<YearMonth>, k: YearMonth): (r: seq<YearMonth>)
    requires StrictlyIncreasing(ks)
    ensures StrictlyIncreasing(r)
    ensures forall m :: m in r <==> m in ks || m == k
    ensures |r| <= |ks| + 1
  {
    if ks == [] then [k]
    else if k == ks[0] then ks
    else if Before(k, ks[0]) then [k] + ks
    else
      var rest := InsertMonth(ks[1..], k);
      assert forall m :: m in rest ==> Before(ks[0], m) by {
        forall m | m in rest ensures Before(ks[0], m) {
          if m != k {
            var j :| 0 <= j < |ks[1..]| && ks[1..][j] == m;
            assert ks[j + 1] == m;
          }
        }
      }
      [ks[0]] + rest
  }

  /** A month that comes after every month of the sequence is inserted at the end. */
  lemma {:induction false} InsertLatestMonth(ks: seq<YearMonth>, k: YearMonth)
    requires StrictlyIncreasing(ks)
    requires forall m :: m in ks ==> Before(m, k)
    ensures InsertMonth(ks, k) == ks + [k]
  {
    if ks != [] {
      assert ks[0] in ks;
      assert !Before(k, ks[0]);
      assert ks[1..] + [k] == (ks + [k])[1..];
      InsertLatestMonth(ks[1..], k);
    }
  }

  /** The distinct months of ms in ascending order, as a group-by on the month
      key lists its groups. */
  function SortedMonths(ms: seq<YearMonth>): (ks: seq<YearMonth>)
    ensures StrictlyIncreasing(ks)
    ensures forall k :: k in ks <==> k in ms
  {
    if ms == [] then []
    else
      assert ms == ms[..|ms| - 1] + [ms[|ms| - 1]];
      InsertMonth(SortedMonths(ms[..|ms| - 1]), ms[|ms| - 1])
  }

  /** A strictly increasing sequence has no repeated element. */
  lemma {:induction false} DistinctCount(ks: seq<YearMonth>)
    requires StrictlyIncreasing(ks)
    ensures |set k | k in ks| == |ks|
  {
    if ks != [] {
      var init := ks[..|ks| - 1];
      var last := ks[|ks| - 1];
      DistinctCount(init);
      assert last !in init by {
        forall i | 0 <= i < |init| ensures init[i] != last {
          assert Before(ks[i], ks[|ks| - 1]);
        }
      }
      assert (set k | k in ks) == (set k | k in init) + {last};
    }
  }

  /** The total of one month over rows that all belong to one menu item. */
  function GroupTotal(sel: seq<Row>, ym: YearMonth, ings: seq<string>): MonthTotal {
    MonthTotal(ym, GroupSum(sel, ym, ItemSold), map c | c in ings :: GroupSum(sel, ym, Ingredient(c)))
  }

  /** The monthly aggregate of one menu item: the item's rows grouped by
      month, one total per month in ascending month order. */
  function MonthlyTotals(rows: seq<Row>, menu: string, ings: seq<string>): seq<MonthTotal> {
    var sel := SelectItem(rows, menu);
    var ks := SortedMonths(RowMonths(sel));
    seq(|ks|, i requires 0 <= i < |ks| => GroupTotal(sel, ks[i], ings))
  }

  /** The aggregate has one total per distinct month of the item, in ascending
      month order, and each total holds the sums of the item's rows of that
      month, for Item Sold and for every ingredient column. */
  lemma MonthlyTotalsCorrect(rows: seq<Row>, menu: string, ings: seq<string>)
    ensures var totals := MonthlyTotals(rows, menu, ings);
      && (forall i, j :: 0 <= i < j < |totals| ==> Before(totals[i].month, totals[j].month))
      && (set i | 0 <= i < |totals| :: totals[i].month) == ItemMonths(rows, menu)
      && |totals| == |ItemMonths(rows, menu)|
      && (forall i :: 0 <= i < |totals| ==>
            totals[i].itemSold == ItemMonthSum(rows, menu, totals[i].month, ItemSold))
      && (forall i :: 0 <= i < |totals| ==> totals[i].quantities.Keys == set c | c in ings)
      && (forall i, c :: 0 <= i < |totals| && c in ings ==>
            totals[i].quantities[c] == ItemMonthSum(rows, menu, totals[i].month, Ingredient(c)))
  {
    var sel := SelectItem(rows, menu);
    var ks := SortedMonths(RowMonths(sel));
    MonthlyTotalsFacts(rows, menu, ings, sel, ks, MonthlyTotals(rows, menu, ings));
  }

  lemma MonthlyTotalsFacts(rows: seq<Row>, menu: string, ings: seq<string>,
                           sel: seq<Row>, ks: seq<YearMonth>, totals: seq<MonthTotal>)
    requires sel == SelectItem(rows, menu)
    requires ks == SortedMonths(RowMonths(sel))
    requires |totals| == |ks|
    requires forall i :: 0 <= i < |ks| ==> totals[i] == GroupTotal(sel, ks[i], ings)
    ensures (set i | 0 <= i < |totals| :: totals[i].month) == ItemMonths(rows, menu)
    ensures |totals| == |ItemMonths(rows, menu)|
    ensures forall i :: 0 <= i < |totals| ==>
              totals[i].itemSold == ItemMonthSum(rows, menu, totals[i].month, ItemSold)
    ensures forall i :: 0 <= i < |totals| ==> totals[i].quantities.Keys == set c | c in ings
    ensures forall i, c :: 0 <= i < |totals| && c in ings ==>
              totals[i].quantities[c] == ItemMonthSum(rows, menu, totals[i].month, Ingredient(c))
  {
    SortedMonthsAreItemMonths(rows, menu);
    assert (set i | 0 <= i < |totals| :: totals[i].month) == (set k | k in ks) by {
      forall k ensures k in (set i | 0 <= i < |totals| :: totals[i].month) <==> k in ks {
        if k in ks {
          var i :| 0 <= i < |ks| && ks[i] == k;
          assert totals[i].month == k;
        }
      }
    }
    DistinctCount(ks);
    TotalsAreItemMonthSums(rows, menu, ings, sel, ks, totals);
  }

  /** The aggregate's months are exactly the item's months. */
  lemma SortedMonthsAreItemMonths(rows: seq<Row>, menu: string)
    ensures (set k | k in SortedMonths(RowMonths(SelectItem(rows, menu)))) == ItemMonths(rows, menu)
  {
    var sel := SelectItem(rows, menu);
    var ms := RowMonths(sel);
    var ks := SortedMonths(ms);
    forall k ensures k in ks <==> k in ItemMonths(rows, menu) {
      if k in ks {
        var i :| 0 <= i < |ms| && ms[i] == k;
        assert sel[i] in sel;
      }
      if k in ItemMonths(rows, menu) {
        var x :| x in rows && x.itemName == menu && MonthOf(x.date) == k;
        var i :| 0 <= i < |sel| && sel[i] == x;
        assert ms[i] == k;
      }
    }
  }

  lemma TotalsAreItemMonthSums(rows: seq<Row>, menu: string, ings: seq<string>,
                               sel: seq<Row>, ks: seq<YearMonth>, totals: seq<MonthTotal>)
    requires sel == SelectItem(rows, menu)
    requires |totals| == |ks|
    requires forall i :: 0 <= i < |ks| ==> totals[i] == GroupTotal(sel, ks[i], ings)
    ensures forall i :: 0 <= i < |totals| ==>
              totals[i].itemSold == ItemMonthSum(rows, menu, totals[i].month, ItemSold)
    ensures forall i :: 0 <= i < |totals| ==> totals[i].quantities.Keys == set c | c in ings
    ensures forall i, c :: 0 <= i < |totals| && c in ings ==>
              totals[i].quantities[c] == ItemMonthSum(rows, menu, totals[i].month, Ingredient(c))
  {
    forall i | 0 <= i < |totals|
      ensures totals[i].itemSold == ItemMonthSum(rows, menu, totals[i].month, ItemSold)
    {
      SelectThenGroup(rows, menu, ks[i], ItemSold);
    }
    forall i, c | 0 <= i < |totals| && c in ings
      ensures totals[i].quantities[c] == ItemMonthSum(rows, menu, totals[i].month, Ingredient(c))
    {
      SelectThenGroup(rows, menu, ks[i], Ingredient(c));
    }
  }

  /** A month in which no row falls sums to zero. */
  lemma {:induction false} GroupSumOfAbsentMonth(rows: seq<Row>, ym: YearMonth, col: Column)
    requires forall x :: x in rows ==> MonthOf(x.date) != ym
    ensures GroupSum(rows, ym, col) == 0.0
  {
    if rows != [] {
      var init := rows[..|rows| - 1];
      assert forall x :: x in init ==> x in rows;
      GroupSumOfAbsentMonth(init, ym, col);
    }
  }

  /** A row of another menu item leaves the item's monthly aggregate as it was. */
  lemma AppendRowOfOtherItem(rows: seq<Row>, menu: string, ings: seq<string>, x: Row)
    requires x.itemName != menu
    ensures MonthlyTotals(rows + [x], menu, ings) == MonthlyTotals(rows, menu, ings)
  {
    assert (rows + [x])[..|rows|] == rows;
    assert SelectItem(rows + [x], menu) == SelectItem(rows, menu);
  }

  lemma SelectItemAppend(rows: seq<Row>, menu: string, x: Row)
    ensures SelectItem(rows + [x], menu)
         == if x.itemName == menu then SelectItem(rows, menu) + [x] else SelectItem(rows, menu)
  {
    assert (rows + [x])[..|rows|] == rows;
  }

  lemma SortedMonthsAppendLatest(ms: seq<YearMonth>, k: YearMonth)
    requires forall m :: m in ms ==> Before(m, k)
    ensures SortedMonths(ms + [k]) == SortedMonths(ms) + [k]
  {
    assert (ms + [k])[..|ms|] == ms;
    InsertLatestMonth(SortedMonths(ms), k);
  }

  lemma GroupTotalAppendOtherMonth(sel: seq<Row>, x: Row, ym: YearMonth, ings: seq<string>)
    requires MonthOf(x.date) != ym
    ensures GroupTotal(sel + [x], ym, ings) == GroupTotal(sel, ym, ings)
  {
    assert (sel + [x])[..|sel|] == sel;
    forall col: Column ensures GroupSum(sel + [x], ym, col) == GroupSum(sel, ym, col) {
    }
  }

  lemma GroupTotalAppendNewMonth(sel: seq<Row>, x: Row, ings: seq<string>)
    requires forall y :: y in sel ==> MonthOf(y.date) != MonthOf(x.date)
    ensures GroupTotal(sel + [x], MonthOf(x.date), ings)
         == MonthTotal(MonthOf(x.date), x.itemSold, map c | c in ings :: Cell(x.quantities, c))
  {
    assert (sel + [x])[..|sel|] == sel;
    forall col: Column ensures GroupSum(sel + [x], MonthOf(x.date), col) == Value(x, col) {
      GroupSumOfAbsentMonth(sel, MonthOf(x.date), col);
    }
  }

  lemma EarlierTotalsUnchanged(sel: seq<Row>, x: Row, ks: seq<YearMonth>, ings: seq<string>)
    requires forall m :: m in ks ==> Before(m, MonthOf(x.date))
    ensures forall i :: 0 <= i < |ks| ==> GroupTotal(sel + [x], ks[i], ings) == GroupTotal(sel, ks[i], ings)
  {
    forall i | 0 <= i < |ks|
      ensures GroupTotal(sel + [x], ks[i], ings) == GroupTotal(sel, ks[i], ings)
    {
      assert ks[i] in ks;
      GroupTotalAppendOtherMonth(sel, x, ks[i], ings);
    }
  }

  /** Every month of the selected rows is a month of the item. */
  lemma SelectedMonthsAreItemMonths(rows: seq<Row>, menu: string)
    ensures forall m :: m in RowMonths(SelectItem(rows, menu)) ==> m in ItemMonths(rows, menu)
  {
    var sel := SelectItem(rows, menu);
    var ms := RowMonths(sel);
    forall m | m in ms ensures m in ItemMonths(rows, menu) {
      var i :| 0 <= i < |ms| && ms[i] == m;
      assert sel[i] in sel;
    }
  }

  lemma AppendLaterSortedMonths(rows: seq<Row>, menu: string, x: Row)
    requires x.itemName == menu
    requires forall m :: m in ItemMonths(rows, menu) ==> Before(m, MonthOf(x.date))
    ensures SortedMonths(RowMonths(SelectItem(rows + [x], menu)))
         == SortedMonths(RowMonths(SelectItem(rows, menu))) + [MonthOf(x.date)]
    ensures SelectItem(rows + [x], menu) == SelectItem(rows, menu) + [x]
  {
    var sel := SelectItem(rows, menu);
    var ms := RowMonths(sel);
    SelectItemAppend(rows, menu, x);
    assert RowMonths(sel + [x]) == ms + [MonthOf(x.date)];
    SelectedMonthsAreItemMonths(rows, menu);
    SortedMonthsAppendLatest(ms, MonthOf(x.date));
  }

  lemma AppendLaterEarlierTotals(rows: seq<Row>, menu: string, ings: seq<string>, x: Row)
    requires x.itemName == menu
    requires forall m :: m in ItemMonths(rows, menu) ==> Before(m, MonthOf(x.date))
    ensures var before := MonthlyTotals(rows, menu, ings);
            var after := MonthlyTotals(rows + [x], menu, ings);
            |after| == |before| + 1 && forall i :: 0 <= i < |before| ==> after[i] == before[i]
  {
    var sel := SelectItem(rows, menu);
    var ks := SortedMonths(RowMonths(sel));
    AppendLaterSortedMonths(rows, menu, x);
    SelectedMonthsAreItemMonths(rows, menu);
    EarlierTotalsUnchanged(sel, x, ks, ings);
  }

  lemma AppendLaterNewTotal(rows: seq<Row>, menu: string, ings: seq<string>, x: Row)
    requires x.itemName == menu
    requires forall m :: m in ItemMonths(rows, menu) ==> Before(m, MonthOf(x.date))
    ensures var before := MonthlyTotals(rows, menu, ings);
            var after := MonthlyTotals(rows + [x], menu, ings);
            |after| == |before| + 1
            && after[|before|] == MonthTotal(MonthOf(x.date), x.itemSold, map c | c in ings :: Cell(x.quantities, c))
  {
    var k := MonthOf(x.date);
    var sel := SelectItem(rows, menu);
    var ms := RowMonths(sel);
    AppendLaterSortedMonths(rows, menu, x);
    SelectedMonthsAreItemMonths(rows, menu);
    forall y | y in sel ensures MonthOf(y.date) != k {
      var i :| 0 <= i < |sel| && sel[i] == y;
      assert ms[i] in ms;
      assert Before(ms[i], k);
    }
    GroupTotalAppendNewMonth(sel, x, ings);
  }

  /** A row of the item in a month later than all of the item's months adds
      exactly one total at the end, made of that row's values alone. */
  lemma AppendRowOfLaterMonth(rows: seq<Row>, menu: string, ings: seq<string>, x: Row)
    requires x.itemName == menu
    requires forall m :: m in ItemMonths(rows, menu) ==> Before(m, MonthOf(x.date))
    ensures MonthlyTotals(rows + [x], menu, ings)
         == MonthlyTotals(rows, menu, ings)
            + [MonthTotal(MonthOf(x.date), x.itemSold, map c | c in ings :: Cell(x.quantities, c))]
  {
    AppendLaterEarlierTotals(rows, menu, ings, x);
    AppendLaterNewTotal(rows, menu, ings, x);
    var before := MonthlyTotals(rows, menu, ings);
    var after := MonthlyTotals(rows + [x], menu, ings);
    assert after == before + [after[|before|]];
  }
}
