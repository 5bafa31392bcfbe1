/** The requirement estimator: per-unit ingredient ratios of every month, their
    unweighted mean, and the projected amount of every ingredient for a
    predicted number of units. Ratios follow floating-point division as the
    data frame performs it: 0/0 is NaN, which the mean skips, and x/0 for
    x != 0 is infinite, which makes the rounded amount impossible. */
module Estimation {
  import opened Results
  import opened Calendar
  import opened Aggregation

  /** The outcome of one division quantity / sold. */
  datatype Ratio = Finite(value: real) | Undefined | Unbounded

  function PerUnit(quantity: real, sold: real): (r: Ratio)
    ensures r.Finite? <==> sold != 0.0
    ensures r.Finite? ==> r.value * sold == quantity
    ensures r.Undefined? <==> sold == 0.0 && quantity == 0.0
  {
    if sold != 0.0 then Finite(quantity / sold)
    else if quantity == 0.0 then Undefined
    else Unbounded
  }

  /** The per-unit column of one ingredient, one ratio per month: the
      reference the loop below is compared with. */
  function RatioColumn(totals: seq<MonthTotal>, c: string): seq<Ratio> {
    seq(|totals|, i requires 0 <= i < |totals| => PerUnit(Cell(totals[i].quantities, c), totals[i].itemSold))
  }

  /** The name under which the per-unit column of ingredient c is written. */
  function PerPortionColumn(c: string): string {
    "Per Porsi " + c
  }

  lemma PerPortionColumnInjective(a: string, b: string)
    requires PerPortionColumn(a) == PerPortionColumn(b)
    ensures a == b
  {
    assert a == PerPortionColumn(a)[10..];
    assert b == PerPortionColumn(b)[10..];
  }

  /** One cell divided by the month's units sold in floating point: NaN stays
      NaN and an infinity stays infinite, whatever the divisor. */
  function Divide(r: Ratio, sold: real): (q: Ratio)
    ensures q.Finite? <==> r.Finite? && sold != 0.0
    ensures q.Finite? ==> q.value * sold == r.value
    ensures q.Undefined? <==> r.Undefined? || (r == Finite(0.0) && sold == 0.0)
  {
    match r
    case Finite(v) => PerUnit(v, sold)
    case Undefined => Undefined
    case Unbounded => Unbounded
  }

  /** The monthly aggregate as the per-unit loop sees it: every column by
      name, one cell per month. */
  type Frame = map<string, seq<Ratio>>

  /** The ingredient sums of the aggregate, before any per-unit column is written. */
  function SumFrame(totals: seq<MonthTotal>, ings: seq<string>): (f: Frame)
    ensures forall c :: c in f <==> c in ings
    ensures forall c :: c in f ==> |f[c]| == |totals|
  {
    map c | c in ings :: seq(|totals|, i requires 0 <= i < |totals| => Finite(Cell(totals[i].quantities, c)))
  }

  function DivideColumn(col: seq<Ratio>, totals: seq<MonthTotal>): (q: seq<Ratio>)
    requires |col| == |totals|
    ensures |q| == |totals|
  {
    seq(|col|, i requires 0 <= i < |col| => Divide(col[i], totals[i].itemSold))
  }

  /** The frame once the loop has handled the first k ingredients: each one's
      column as it then stands, divided by units sold, is written under its
      per-unit name, replacing any column of that name. */
  function FrameAfter(totals: seq<MonthTotal>, ings: seq<string>, k: nat): (f: Frame)
    requires k <= |ings|
    ensures forall c :: c in ings ==> c in f
    ensures forall j :: 0 <= j < k ==> PerPortionColumn(ings[j]) in f
    ensures forall c :: c in f ==> |f[c]| == |totals|
    decreases k
  {
    if k == 0 then SumFrame(totals, ings)
    else
      var f := FrameAfter(totals, ings, k - 1);
      var c := ings[k - 1];
      f[PerPortionColumn(c) := DivideColumn(f[c], totals)]
  }

  /** The frame after the whole loop. */
  function PerUnitFrame(totals: seq<MonthTotal>, ings: seq<string>): (f: Frame)
    ensures forall c :: c in ings ==> c in f && PerPortionColumn(c) in f
    ensures forall c :: c in f ==> |f[c]| == |totals|
  {
    PerPortionColumnsWritten(totals, ings);
    FrameAfter(totals, ings, |ings|)
  }

  lemma PerPortionColumnsWritten(totals: seq<MonthTotal>, ings: seq<string>)
    ensures forall c :: c in ings ==> PerPortionColumn(c) in FrameAfter(totals, ings, |ings|)
  {
    forall c | c in ings ensures PerPortionColumn(c) in FrameAfter(totals, ings, |ings|) {
      var j :| 0 <= j < |ings| && ings[j] == c;
    }
  }

  /** Adds the per-unit columns to the monthly aggregate, one ingredient at a
      time, writing each under its per-unit name. */
  method ComputePerUnit(totals: seq<MonthTotal>, ings: seq<string>) returns (perUnit: Frame)
    ensures perUnit == PerUnitFrame(totals, ings)
  {
    perUnit := SumFrame(totals, ings);
    var k := 0;
    while k < |ings|
      invariant 0 <= k <= |ings|
      invariant perUnit == FrameAfter(totals, ings, k)
    {
      var c := ings[k];
      perUnit := perUnit[PerPortionColumn(c) := DivideColumn(perUnit[c], totals)];
      k := k + 1;
    }
  }

  /** No ingredient column carries the per-unit name of an ingredient column. */
  predicate PlainHeader(ings: seq<string>) {
    forall c, d :: c in ings && d in ings ==> c != PerPortionColumn(d)
  }

  lemma {:induction false} FrameOfPlainHeader(totals: seq<MonthTotal>, ings: seq<string>, k: nat)
    requires k <= |ings|
    requires PlainHeader(ings)
    ensures forall c :: c in ings ==> FrameAfter(totals, ings, k)[c] == SumFrame(totals, ings)[c]
    ensures forall j :: 0 <= j < k ==>
              FrameAfter(totals, ings, k)[PerPortionColumn(ings[j])] == RatioColumn(totals, ings[j])
  {
    if k > 0 {
      FrameOfPlainHeader(totals, ings, k - 1);
      var f := FrameAfter(totals, ings, k - 1);
      var c := ings[k - 1];
      assert PerPortionColumn(c) !in ings;
      assert DivideColumn(f[c], totals) == RatioColumn(totals, c);
      forall j | 0 <= j < k
        ensures FrameAfter(totals, ings, k)[PerPortionColumn(ings[j])] == RatioColumn(totals, ings[j])
      {
        if PerPortionColumn(ings[j]) == PerPortionColumn(c) {
          PerPortionColumnInjective(ings[j], c);
        }
      }
    }
  }

  /** With a plain header the per-unit column of every ingredient is its
      monthly ratio, one per month. */
  lemma PlainHeaderRatios(totals: seq<MonthTotal>, ings: seq<string>)
    requires PlainHeader(ings)
    ensures forall c :: c in ings ==> PerUnitFrame(totals, ings)[PerPortionColumn(c)] == RatioColumn(totals, c)
  {
    FrameOfPlainHeader(totals, ings, |ings|);
    forall c | c in ings ensures PerUnitFrame(totals, ings)[PerPortionColumn(c)] == RatioColumn(totals, c) {
      var j :| 0 <= j < |ings| && ings[j] == c;
    }
  }

  lemma DivideColumnAppend(a: seq<Ratio>, b: seq<Ratio>, ta: seq<MonthTotal>, tb: seq<MonthTotal>)
    requires |a| == |ta| && |b| == |tb|
    ensures DivideColumn(a + b, ta + tb) == DivideColumn(a, ta) + DivideColumn(b, tb)
  {
  }

  /** The loop works month by month: the frame of an aggregate with one more
      month is the frame of the old months with the cells of the new month
      appended to every column. */
  lemma {:induction false} FrameAfterAppend(totals: seq<MonthTotal>, nt: MonthTotal, ings: seq<string>, k: nat)
    requires k <= |ings|
    ensures var f := FrameAfter(totals + [nt], ings, k);
            var g := FrameAfter(totals, ings, k);
            var h := FrameAfter([nt], ings, k);
            && f.Keys == g.Keys == h.Keys
            && forall c :: c in f ==> f[c] == g[c] + h[c]
  {
    if k == 0 {
      SumFrameAppend(totals, nt, ings);
    } else {
      FrameAfterAppend(totals, nt, ings, k - 1);
      FrameStepAppend(FrameAfter(totals + [nt], ings, k - 1), FrameAfter(totals, ings, k - 1),
                      FrameAfter([nt], ings, k - 1), totals, nt, ings[k - 1]);
    }
  }

  lemma SumFrameAppend(totals: seq<MonthTotal>, nt: MonthTotal, ings: seq<string>)
    ensures var f := SumFrame(totals + [nt], ings);
            var g := SumFrame(totals, ings);
            var h := SumFrame([nt], ings);
            && f.Keys == g.Keys == h.Keys
            && forall c :: c in f ==> f[c] == g[c] + h[c]
  {
    var f := SumFrame(totals + [nt], ings);
    var g := SumFrame(totals, ings);
    var h := SumFrame([nt], ings);
    forall c | c in f ensures f[c] == g[c] + h[c] {
      assert |f[c]| == |g[c]| + |h[c]|;
    }
  }

  /** One step of the loop keeps a frame the month-wise concatenation of two others. */
  lemma FrameStepAppend(f: Frame, g: Frame, h: Frame, totals: seq<MonthTotal>, nt: MonthTotal, c: string)
    requires f.Keys == g.Keys == h.Keys && c in f
    requires forall d :: d in f ==> f[d] == g[d] + h[d]
    requires forall d :: d in g ==> |g[d]| == |totals|
    requires forall d :: d in h ==> |h[d]| == 1
    ensures var f' := f[PerPortionColumn(c) := DivideColumn(f[c], totals + [nt])];
            var g' := g[PerPortionColumn(c) := DivideColumn(g[c], totals)];
            var h' := h[PerPortionColumn(c) := DivideColumn(h[c], [nt])];
            && f'.Keys == g'.Keys == h'.Keys
            && forall d :: d in f' ==> f'[d] == g'[d] + h'[d]
  {
    DivideColumnAppend(g[c], h[c], totals, [nt]);
  }

  /** The cells of a single month are never infinite when a month without
      sales has nothing of any ingredient; such a month has only zeros and NaN. */
  lemma {:induction false} SingleMonthFrame(nt: MonthTotal, ings: seq<string>, k: nat)
    requires k <= |ings|
    requires nt.itemSold == 0.0 ==> forall c :: c in ings ==> Cell(nt.quantities, c) == 0.0
    ensures forall c :: c in FrameAfter([nt], ings, k) ==> SingleCellBounded(FrameAfter([nt], ings, k)[c][0], nt.itemSold)
  {
    if k > 0 {
      SingleMonthFrame(nt, ings, k - 1);
      var c := ings[k - 1];
      var r := FrameAfter([nt], ings, k - 1)[c][0];
      assert SingleCellBounded(r, nt.itemSold);
      assert DivideColumn(FrameAfter([nt], ings, k - 1)[c], [nt]) == [Divide(r, nt.itemSold)];
    }
  }

  /** A cell of a single month that can still be averaged: never infinite,
      and only zero or NaN in a month without sales. */
  predicate SingleCellBounded(r: Ratio, sold: real) {
    !r.Unbounded? && (sold == 0.0 ==> r == Finite(0.0) || r.Undefined?)
  }

  /** A header holding x and, after it, "Per Porsi x": the column "Per Porsi x"
      is overwritten with x's ratios before the loop reaches it, so the
      per-unit column of "Per Porsi x" holds x's ratios divided by units sold
      once more, and the sums of "Per Porsi x" never enter a ratio. */
  lemma PerPortionColumnOverwritten(totals: seq<MonthTotal>, x: string)
    ensures var f := PerUnitFrame(totals, [x, PerPortionColumn(x)]);
            && f[PerPortionColumn(x)] == RatioColumn(totals, x)
            && f[PerPortionColumn(PerPortionColumn(x))] == DivideColumn(RatioColumn(totals, x), totals)
  {
    var ings := [x, PerPortionColumn(x)];
    var f1 := FrameAfter(totals, ings, 1);
    assert DivideColumn(SumFrame(totals, ings)[x], totals) == RatioColumn(totals, x);
    assert f1[PerPortionColumn(x)] == RatioColumn(totals, x);
    assert PerPortionColumn(PerPortionColumn(x)) != PerPortionColumn(x) by {
      assert |PerPortionColumn(PerPortionColumn(x))| != |PerPortionColumn(x)|;
    }
  }

  function FiniteSum(rs: seq<Ratio>): real {
    if rs == [] then 0.0
    else FiniteSum(rs[..|rs| - 1]) + (if rs[|rs| - 1].Finite? then rs[|rs| - 1].value else 0.0)
  }

  function FiniteCount(rs: seq<Ratio>): nat {
    if rs == [] then 0
    else FiniteCount(rs[..|rs| - 1]) + (if rs[|rs| - 1].Finite? then 1 else 0)
  }

  lemma {:induction false} FiniteCountZero(rs: seq<Ratio>)
    ensures FiniteCount(rs) == 0 <==> forall i :: 0 <= i < |rs| ==> !rs[i].Finite?
  {
    if rs != [] {
      var init := rs[..|rs| - 1];
      FiniteCountZero(init);
      assert forall i :: 0 <= i < |init| ==> init[i] == rs[i];
    }
  }

  /** The mean of a per-unit column, skipping NaN as Series.mean does. It
      fails when a ratio is infinite or when no ratio is finite, since the
      amount derived from it could then not be rounded to an integer. */
  function MeanRatio(rs: seq<Ratio>): (r: Result<real>)
    ensures r.Success? <==>
              (forall i :: 0 <= i < |rs| ==> !rs[i].Unbounded?) && (exists i :: 0 <= i < |rs| && rs[i].Finite?)
    ensures r.Failure? ==> r.error == NonFiniteRatio
  {
    FiniteCountZero(rs);
    if exists i :: 0 <= i < |rs| && rs[i].Unbounded? then Failure(NonFiniteRatio)
    else if FiniteCount(rs) == 0 then Failure(NonFiniteRatio)
    else Success(FiniteSum(rs) / FiniteCount(rs) as real)
  }

  lemma {:induction false} FiniteSumBounds(rs: seq<Ratio>, lo: real, hi: real)
    requires forall i :: 0 <= i < |rs| && rs[i].Finite? ==> lo <= rs[i].value <= hi
    ensures lo * FiniteCount(rs) as real <= FiniteSum(rs) <= hi * FiniteCount(rs) as real
  {
    if rs != [] {
      var init := rs[..|rs| - 1];
      assert forall i :: 0 <= i < |init| ==> init[i] == rs[i];
      FiniteSumBounds(init, lo, hi);
      var n := FiniteCount(init) as real;
      assert lo * (n + 1.0) == lo * n + lo;
      assert hi * (n + 1.0) == hi * n + hi;
    }
  }

  /** The mean of the ratios lies within any bounds that hold for every
      finite ratio; in particular, equal ratios have that ratio as their mean. */
  lemma MeanWithinBounds(rs: seq<Ratio>, lo: real, hi: real)
    requires MeanRatio(rs).Success?
    requires forall i :: 0 <= i < |rs| && rs[i].Finite? ==> lo <= rs[i].value <= hi
    ensures lo <= MeanRatio(rs).value <= hi
  {
    FiniteSumBounds(rs, lo, hi);
    FiniteCountZero(rs);
    var n := FiniteCount(rs) as real;
    var s := FiniteSum(rs);
    assert n > 0.0;
    assert MeanRatio(rs).value == s / n;
    QuotientBounds(s, n, lo, hi);
  }

  lemma QuotientBounds(s: real, n: real, lo: real, hi: real)
    requires n > 0.0 && lo * n <= s <= hi * n
    ensures lo <= s / n <= hi
  {
    var m := s / n;
    assert m * n == s;
    assert (m - lo) * n == s - lo * n;
    assert (hi - m) * n == hi * n - s;
  }

  /** Python's round on a float: the nearest integer, ties to the even one. */
  function RoundHalfEven(x: real): (n: int)
    ensures x - 0.5 <= n as real <= x + 0.5
    ensures (n as real == x - 0.5 || n as real == x + 0.5) ==> n % 2 == 0
  {
    var f := x.Floor;
    var d := x - f as real;
    if d < 0.5 then f
    else if d > 0.5 then f + 1
    else if f % 2 == 0 then f else f + 1
  }

  /** No integer is closer to x than its rounding. */
  lemma RoundHalfEvenIsNearest(x: real, k: int)
    ensures var n := RoundHalfEven(x) as real;
            (if x >= n then x - n else n - x) <= (if x >= k as real then x - k as real else k as real - x)
  {
    var n := RoundHalfEven(x);
    if k < n {
      assert k as real <= n as real - 1.0;
    } else if k > n {
      assert k as real >= n as real + 1.0;
    }
  }

  /** The predicted units times a per-unit ratio. */
  function Scaled(units: int, ratio: real): real {
    units as real * ratio
  }

  /** max(n, 0). */
  function ClampAtZero(n: int): int {
    if n > 0 then n else 0
  }

  /** The projected amount of one ingredient: the predicted units times the
      mean per-unit ratio, rounded, and never below zero. */
  function Requirement(rs: seq<Ratio>, units: int): (r: Result<int>)
    ensures r.Success? <==> MeanRatio(rs).Success?
    ensures r.Failure? ==> r.error == NonFiniteRatio
    ensures r.Success? ==>
              var x := Scaled(units, MeanRatio(rs).value);
              && r.value >= 0
              && (r.value == 0 <==> x <= 0.5)
              && (r.value > 0 ==> x - 0.5 <= r.value as real <= x + 0.5)
  {
    var mean := MeanRatio(rs);
    if mean.Failure? then Failure(mean.error)
    else
      Success(ClampAtZero(RoundHalfEven(Scaled(units, mean.value))))
  }

  /** When every month of a column has the same ratio v, the requirement is
      the predicted units times v, rounded and clamped at zero. */
  lemma {:induction false} UniformRatioRequirement(rs: seq<Ratio>, v: real, units: int)
    requires |rs| > 0
    requires forall i :: 0 <= i < |rs| ==> rs[i] == Finite(v)
    ensures Requirement(rs, units).Success?
    ensures Requirement(rs, units).value == ClampAtZero(RoundHalfEven(Scaled(units, v)))
  {
    assert rs[0].Finite?;
    MeanWithinBounds(rs, v, v);
    RequirementOfMean(rs, units, v);
  }

  lemma RequirementOfMean(rs: seq<Ratio>, units: int, mean: real)
    requires MeanRatio(rs) == Success(mean)
    ensures Requirement(rs, units).Success?
    ensures Requirement(rs, units).value == ClampAtZero(RoundHalfEven(Scaled(units, mean)))
  {
  }

  /** The projected amounts of all ingredients: defined when every ingredient's
      mean ratio is finite, and then keyed by exactly the ingredient columns. */
  function Requirements(perUnit: Frame, ings: seq<string>, units: int): (r: Result<map<string, int>>)
    requires forall c :: c in ings ==> PerPortionColumn(c) in perUnit
    ensures r.Success? <==> forall c :: c in ings ==> MeanRatio(perUnit[PerPortionColumn(c)]).Success?
    ensures r.Failure? ==> r.error == NonFiniteRatio
    ensures r.Success? ==> r.value.Keys == (set c | c in ings)
    ensures r.Success? ==> forall c :: c in r.value ==> r.value[c] >= 0
  {
    if forall c :: c in ings ==> Requirement(perUnit[PerPortionColumn(c)], units).Success? then
      Success(map c | c in ings :: Requirement(perUnit[PerPortionColumn(c)], units).value)
    else
      Failure(NonFiniteRatio)
  }

  lemma RequirementsComplete(perUnit: Frame, ings: seq<string>, units: int, total: map<string, int>)
    requires forall c :: c in ings ==> PerPortionColumn(c) in perUnit
    requires forall j :: 0 <= j < |ings| ==> Requirement(perUnit[PerPortionColumn(ings[j])], units).Success?
    requires forall c :: c in total <==> c in ings
    requires forall c :: c in total ==> total[c] == Requirement(perUnit[PerPortionColumn(c)], units).value
    ensures Requirements(perUnit, ings, units) == Success(total)
  {
    assert forall c :: c in ings ==> Requirement(perUnit[PerPortionColumn(c)], units).Success? by {
      forall c | c in ings ensures Requirement(perUnit[PerPortionColumn(c)], units).Success? {
        var j :| 0 <= j < |ings| && ings[j] == c;
      }
    }
    var expected := map c | c in ings :: Requirement(perUnit[PerPortionColumn(c)], units).value;
    assert expected == total;
  }

  /** Every amount of a defined requirement table is the rounded, clamped
      product of the units and the mean of that ingredient's per-unit column. */
  lemma RequirementsValues(perUnit: Frame, ings: seq<string>, units: int)
    requires forall c :: c in ings ==> PerPortionColumn(c) in perUnit
    requires Requirements(perUnit, ings, units).Success?
    ensures forall c :: c in ings ==>
              && MeanRatio(perUnit[PerPortionColumn(c)]).Success?
              && Requirements(perUnit, ings, units).value[c]
                 == ClampAtZero(RoundHalfEven(Scaled(units, MeanRatio(perUnit[PerPortionColumn(c)]).value)))
  {
    forall c | c in ings
      ensures MeanRatio(perUnit[PerPortionColumn(c)]).Success?
      ensures Requirements(perUnit, ings, units).value[c]
           == ClampAtZero(RoundHalfEven(Scaled(units, MeanRatio(perUnit[PerPortionColumn(c)]).value)))
    {
      var column := perUnit[PerPortionColumn(c)];
      RequirementOfMean(column, units, MeanRatio(column).value);
    }
  }

  /** Fills the requirement dictionary ingredient by ingredient, from the
      mean of each ingredient's per-unit column. */
  method EstimateRequirements(perUnit: Frame, ings: seq<string>, units: int)
    returns (r: Result<map<string, int>>)
    requires forall c :: c in ings ==> PerPortionColumn(c) in perUnit
    ensures r == Requirements(perUnit, ings, units)
  {
    var total: map<string, int> := map[];
    var k := 0;
    while k < |ings|
      invariant 0 <= k <= |ings|
      invariant forall j :: 0 <= j < k ==> Requirement(perUnit[PerPortionColumn(ings[j])], units).Success?
      invariant forall c :: c in total <==> c in ings[..k]
      invariant forall c :: c in total ==> total[c] == Requirement(perUnit[PerPortionColumn(c)], units).value
    {
      var c := ings[k];
      var column := perUnit[PerPortionColumn(c)];
      var mean := MeanRatio(column);
      if mean.Failure? {
        assert !Requirement(column, units).Success?;
        return Failure(NonFiniteRatio);
      }
      var needed := ClampAtZero(RoundHalfEven(Scaled(units, mean.value)));
      RequirementOfMean(column, units, mean.value);
      total := total[c := needed];
      assert ings[..k + 1] == ings[..k] + [c];
      k := k + 1;
    }
    assert ings[..k] == ings;
    RequirementsComplete(perUnit, ings, units, total);
    return Success(total);
  }

  /** Two months with 10 of an ingredient per 100 units and 15 per 150 have a
      mean ratio of 0.1, so 200 predicted units need 20. */
  lemma TwoMonthExample()
    ensures var totals := [MonthTotal(YearMonth(2024, 1), 100.0, map["Beans" := 10.0]),
                           MonthTotal(YearMonth(2024, 2), 150.0, map["Beans" := 15.0])];
            Requirements(PerUnitFrame(totals, ["Beans"]), ["Beans"], 200) == Success(map["Beans" := 20])
  {
    var totals := [MonthTotal(YearMonth(2024, 1), 100.0, map["Beans" := 10.0]),
                   MonthTotal(YearMonth(2024, 2), 150.0, map["Beans" := 15.0])];
    var f := PerUnitFrame(totals, ["Beans"]);
    TwoMonthFrame(totals);
    var rs := f[PerPortionColumn("Beans")];
    UniformRatioRequirement(rs, 0.1, 200);
    assert Scaled(200, 0.1) == 20.0;
    RequirementsComplete(f, ["Beans"], 200, map["Beans" := 20]);
  }

  /** The per-unit column of TwoMonthExample: 0.1 in both months. */
  lemma TwoMonthFrame(totals: seq<MonthTotal>)
    requires totals == [MonthTotal(YearMonth(2024, 1), 100.0, map["Beans" := 10.0]),
                        MonthTotal(YearMonth(2024, 2), 150.0, map["Beans" := 15.0])]
    ensures PerUnitFrame(totals, ["Beans"])[PerPortionColumn("Beans")] == [Finite(0.1), Finite(0.1)]
  {
    assert PlainHeader(["Beans"]) by {
      assert |PerPortionColumn("Beans")| != |"Beans"|;
    }
    PlainHeaderRatios(totals, ["Beans"]);
    var rs := RatioColumn(totals, "Beans");
    assert rs[0] == Finite(0.1) && rs[1] == Finite(0.1);
  }

  /** One month with 10 units sold, 5 of Beans and 20 in a column named
      "Per Porsi Beans": that column is overwritten with the Beans ratio 0.5
      before its own ratio is taken, so its ratio is 0.05 and 100 predicted
      units need 5 of it, not 200. */
  lemma OverwrittenColumnExample()
    ensures var totals := [MonthTotal(YearMonth(2024, 1), 10.0, map["Beans" := 5.0, "Per Porsi Beans" := 20.0])];
            var ings := ["Beans", "Per Porsi Beans"];
            Requirements(PerUnitFrame(totals, ings), ings, 100) == Success(map["Beans" := 50, "Per Porsi Beans" := 5])
  {
    var totals := [MonthTotal(YearMonth(2024, 1), 10.0, map["Beans" := 5.0, "Per Porsi Beans" := 20.0])];
    var ings := ["Beans", "Per Porsi Beans"];
    var f := PerUnitFrame(totals, ings);
    OverwrittenFrame(totals, ings);
    var beans := f[PerPortionColumn("Beans")];
    var again := f[PerPortionColumn("Per Porsi Beans")];
    UniformRatioRequirement(beans, 0.5, 100);
    UniformRatioRequirement(again, 0.05, 100);
    assert Scaled(100, 0.5) == 50.0 && Scaled(100, 0.05) == 5.0;
    RequirementsComplete(f, ings, 100, map["Beans" := 50, "Per Porsi Beans" := 5]);
  }

  /** The per-unit columns of OverwrittenColumnExample: 0.5 for Beans, and
      0.5 / 10 for the overwritten column. */
  lemma OverwrittenFrame(totals: seq<MonthTotal>, ings: seq<string>)
    requires totals == [MonthTotal(YearMonth(2024, 1), 10.0, map["Beans" := 5.0, "Per Porsi Beans" := 20.0])]
    requires ings == ["Beans", "Per Porsi Beans"]
    ensures PerUnitFrame(totals, ings)[PerPortionColumn("Beans")] == [Finite(0.5)]
    ensures PerUnitFrame(totals, ings)[PerPortionColumn("Per Porsi Beans")] == [Finite(0.05)]
  {
    BeansPerPortionColumn();
    assert ings == ["Beans", PerPortionColumn("Beans")];
    PerPortionColumnOverwritten(totals, "Beans");
    var f := PerUnitFrame(totals, ings);
    var again := f[PerPortionColumn("Per Porsi Beans")];
    assert again[0] == Divide(Finite(0.5), 10.0);
  }

  lemma BeansPerPortionColumn()
    ensures PerPortionColumn("Beans") == "Per Porsi Beans"
  {
    var p := PerPortionColumn("Beans");
    assert |p| == 15;
    forall i | 0 <= i < 15 ensures p[i] == "Per Porsi Beans"[i] {
      if i < 10 {
        assert p[i] == "Per Porsi "[i];
      } else {
        assert p[i] == "Beans"[i - 10];
      }
    }
  }
}
