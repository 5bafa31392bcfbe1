# Raw-material forecasting backend, modelled in Dafny

The backend (`backend/app.py`) serves demand forecasts for two menu items of
a café, Americano and Garlic Fries. It keeps one dataset of sales rows in
memory and one backing spreadsheet file, the "latest uploaded" file. A
prediction request does the following:

- reloads the dataset from that file;
- keeps the rows of the requested item and sums every numeric column per
  calendar month;
- divides each ingredient's monthly total by the units sold that month;
- feeds the latest month's units to a trained model, which returns the
  units for the next month;
- computes each ingredient's need as the predicted units times the mean
  per-unit ratio, rounded and clamped at zero;
- appends the forecast as a new row dated on the last day of the next
  month, and saves the dataset back to the file.

An upload request checks the file name's extension. It then saves the file,
makes it the current file and loads it.

The project has one module per part of that pipeline:

| file | module | what it models |
|---|---|---|
| `results.dfy` | `Results` | the error cases of both routes and the `Result`/`Option` wrappers |
| `calendar.dfy` | `Calendar` | `get_last_day_of_month` and the "monthly period + 1" step |
| `filenames.dfy` | `Filenames` | `allowed_file`: `rsplit('.', 1)`, `lower()` and the extension set |
| `aggregation.dfy` | `Aggregation` | item filter, month key, group-by-month sums, ingredient column discovery |
| `estimation.dfy` | `Estimation` | the per-unit columns written into the aggregate, their NaN-skipping mean, Python rounding, the clamped requirement |
| `pipeline.dfy` | `Pipeline` | the whole prediction as a function of the loaded dataset, and its end-to-end properties |
| `backend.dfy` | `Service` | the shared state (`df`, `latest_uploaded_filename`, the upload folder) and the two request handlers |

Parts of the source are not modelled directly:

- The trained model and its scalers are the function parameter `model`. It
  maps the item and the latest month's units sold to the predicted integer
  units.
- `secure_filename` is the parameter `savedName`.
- The upload folder is a map from file names to their parsed contents.
  `None` stands for a saved file that does not load as a spreadsheet.

Pandas semantics are modelled as follows:

- A missing cell counts as zero in a sum.
- `x / 0` is infinite for `x != 0`, and `0 / 0` is NaN (`Estimation.Ratio`).
- The mean skips NaN.
- Rounding an infinite or NaN mean to an integer raises. That failure is
  `NonFiniteRatio`.
- `iloc[-1]` on an empty aggregate raises. That failure is `NoHistoricalData`.

Some behaviour of the code is easy to miss, and the model follows it:

- **Zero units sold.** The per-unit step divides by the month's units sold
  even when they are zero:
  - a month with no units and no ingredient gets NaN, which the mean skips;
  - a month with no units but some ingredient gets an infinite ratio, and
    the request then fails;
  - when every month is NaN, the mean is NaN and the request fails as well.
- **Month order.** `groupby` sorts its keys, so the aggregate is in
  ascending month order whatever the row order. The forecast month
  therefore follows the latest month of the item
  (`Pipeline.ForecastFollowsLatestMonth`).
- **Per-unit columns are written into the aggregate.** The loop at lines
  75-76 stores each ratio column under the name `Per Porsi <ingredient>`
  in the same table it reads from. An ingredient column whose own name is
  `Per Porsi X`, for an ingredient X listed before it, is therefore
  replaced by X's ratios before its own ratio is taken. The model keeps the
  aggregate as a map from column names to columns (`Estimation.Frame`) and
  replays the loop on it (`Estimation.PerPortionColumnOverwritten`,
  `Estimation.OverwrittenColumnExample`).
- **Order of steps.** The code reloads `df` before it checks the menu. A
  request for an unknown item therefore still replaces the dataset in
  memory with the file's contents (`Service.Backend.Predict`).

## Model

| member | source | states |
|---|---|---|
| `Calendar.DaysInMonth` | backend/app.py:45 | the length of a month of the Gregorian calendar is between 28 and 31 days |
| `Calendar.YearLength` | backend/app.py:45 | the month lengths add up to 366 days in a leap year and 365 otherwise |
| `Calendar.LastDayOfMonth` | backend/app.py:44-46 | the result is a valid date in the requested year and month: day 31 in the long months, 30 in April, June, September and November, 29 in a leap February and 28 in any other February |
| `Calendar.FromOrdinal` | backend/app.py:99-100 | every running month number denotes exactly one valid month |
| `Calendar.OrdinalRoundTrip` | backend/app.py:99-100 | the running number of a valid month converts back to that month |
| `Calendar.BeforeIsOrdinalOrder` | backend/app.py:99-100 | on valid months, chronological order coincides with the order of running numbers |
| `Calendar.NextMonth` | backend/app.py:99-102 | the next month is valid and has the next running number. Months 1-11 advance within the year, and December rolls over to January of the next year |
| `Calendar.NextMonthIsSuccessor` | backend/app.py:168-171 | the next month comes after the given one, and no valid month lies strictly between them |
| `Filenames.Lower` | backend/app.py:28 | lower-casing keeps the length and maps each character by ASCII case folding |
| `Filenames.RSplitOnce` | backend/app.py:28 | with no separator the name is one piece; otherwise the name is the first piece, the separator and the second piece, and the second piece holds no separator |
| `Filenames.AllowedFile` | backend/app.py:22-28 | is `allowed_file`: a '.' occurs and the piece after the last '.', lower-cased, is "xlsx"; specified by `AllowedFileIffEndsWithXlsx`, `UpperCaseExtensionAllowed`, `BareExtensionRefused` and `InnerExtensionRefused` |
| `Filenames.AllowedFileIffEndsWithXlsx` | backend/app.py:22-28 | a name is accepted exactly when its last five characters are '.' followed by "xlsx" in any letter case (both directions) |
| `Filenames.UpperCaseExtensionAllowed` | backend/app.py:27-28 | "a.XLSX" is accepted |
| `Filenames.BareExtensionRefused` | backend/app.py:27-28 | "xlsx", which has no '.', is refused |
| `Filenames.InnerExtensionRefused` | backend/app.py:27-28 | "a.xlsx.csv" is refused, because only the last extension counts |
| `Aggregation.Ingredients` | backend/app.py:70-74 | the ingredient columns are exactly the header's columns other than Date, Month, Item Name, Category Name and Item Sold |
| `Aggregation.IngredientsMultiplicity` | backend/app.py:70-74 | each such column occurs among the ingredients exactly as often as in the header, and no identifier column occurs |
| `Aggregation.IngredientsOfConcat` | backend/app.py:70-74 | discovery keeps header order: the ingredients of two header parts are those of the first part followed by those of the second |
| `Aggregation.IngredientsOfIngredients` | backend/app.py:74 | a header made only of ingredient columns is its own ingredient list, in the same order |
| `Aggregation.SelectItem` | backend/app.py:65 | the selected rows are exactly the rows of the requested item |
| `Aggregation.SelectItemMultiplicity` | backend/app.py:65 | each row of the item occurs in the selection exactly as often as in the sheet, and no other row occurs |
| `Aggregation.GroupSum` | backend/app.py:71 | is the per-month `sum()` of one column over the selected rows, a missing cell counting as zero; specified by `SelectThenGroup` and `GroupSumOfAbsentMonth` |
| `Aggregation.SelectThenGroup` | backend/app.py:65-71 | filtering by item and then summing one month of a column gives the sum over the raw rows of that item and that month |
| `Aggregation.InsertMonth` | backend/app.py:71 | inserting a month into a strictly increasing key list keeps it strictly increasing and adds exactly that month |
| `Aggregation.SortedMonths` | backend/app.py:67-71 | the group keys are strictly increasing and are exactly the months of the rows |
| `Aggregation.DistinctCount` | backend/app.py:71 | a strictly increasing key list has no repeated month |
| `Aggregation.GroupSumOfAbsentMonth` | backend/app.py:71 | a month in which no row falls sums to zero |
| `Aggregation.GroupTotal` | backend/app.py:71 | is one row of the aggregate: the month, its Item Sold sum and one sum per ingredient column; specified by `MonthlyTotalsCorrect` |
| `Aggregation.MonthlyTotals` | backend/app.py:65-71 | is `data_bulanan`: the item filter, the month key and the group-by-month sum in sorted month order; specified by `MonthlyTotalsCorrect`, `AppendRowOfOtherItem` and `AppendRowOfLaterMonth` |
| `Aggregation.MonthlyTotalsCorrect` | backend/app.py:65-71 | the aggregate has one row per distinct month of the item, in ascending month order. Each row holds the item's Item Sold and ingredient sums for that month, keyed by exactly the ingredient columns |
| `Aggregation.AppendRowOfOtherItem` | backend/app.py:65-71 | a row of another item does not change an item's aggregate |
| `Aggregation.AppendRowOfLaterMonth` | backend/app.py:65-71 | a row of the item in a month after all its months adds exactly one aggregate row at the end, made of that row's values |
| `Estimation.PerUnit` | backend/app.py:76 | the ratio is finite exactly when units sold is not zero, and then it times units sold is the quantity. It is NaN exactly for 0/0 |
| `Estimation.FrameAfter` | backend/app.py:74-76 | is the aggregate after the first k passes of the per-unit loop, each writing an ingredient's current column divided by units sold under its per-unit name; specified by `PlainHeaderRatios`, `PerPortionColumnOverwritten`, `FrameAfterAppend` and `SingleMonthFrame` |
| `Estimation.PerUnitFrame` | backend/app.py:74-76 | is the aggregate after the whole per-unit loop; specified by `ComputePerUnit`, `PlainHeaderRatios`, `PerPortionColumnOverwritten` and `OverwrittenColumnExample` |
| `Estimation.ComputePerUnit` | backend/app.py:74-76 | the loop leaves the aggregate as `PerUnitFrame` describes it: one step per ingredient in header order, each writing the ingredient's current column divided by units sold under its per-unit name, replacing any column of that name |
| `Estimation.Divide` | backend/app.py:76 | dividing a cell by units sold gives a finite value exactly for a finite cell and non-zero units, and then the value times the units is the cell. NaN stays NaN, and 0/0 is NaN |
| `Estimation.PlainHeaderRatios` | backend/app.py:74-76 | when no ingredient is named after another's per-unit column, each per-unit column holds that ingredient's monthly quantity divided by units sold |
| `Estimation.PerPortionColumnOverwritten` | backend/app.py:74-76 | for ingredients X and `Per Porsi X`, the column of X's ratios is divided by units sold a second time for the ratios of `Per Porsi X` |
| `Estimation.FrameAfterAppend` | backend/app.py:71-76 | the per-unit columns are computed month by month: one more month appends that month's cells to every column |
| `Estimation.SingleMonthFrame` | backend/app.py:76 | a month whose ingredients are all zero when nothing was sold has only zero or NaN cells, never an infinite one |
| `Estimation.MeanRatio` | backend/app.py:94 | the mean is defined exactly when no ratio is infinite and some ratio is finite; otherwise the request fails with NonFiniteRatio |
| `Estimation.MeanWithinBounds` | backend/app.py:94 | the mean lies within any bounds that hold for every finite ratio |
| `Estimation.RoundHalfEven` | backend/app.py:95 | rounding lands within one half of its argument, and a tie goes to the even integer |
| `Estimation.RoundHalfEvenIsNearest` | backend/app.py:95 | no integer is closer to the argument than its rounding |
| `Estimation.Requirement` | backend/app.py:94-95 | the requirement is defined exactly when the mean is. It is never negative, it is zero exactly when predicted units times mean is at most one half, and otherwise it is within one half of that product |
| `Estimation.UniformRatioRequirement` | backend/app.py:94-95 | when every month has the same ratio v, the requirement is the predicted units times v, rounded and clamped at zero |
| `Estimation.Requirements` | backend/app.py:92-96 | the requirement table is defined exactly when every ingredient's mean is. It is then keyed by exactly the ingredient columns, with values that are never negative |
| `Estimation.RequirementsValues` | backend/app.py:92-96 | in a defined table, each amount is the predicted units times the mean of that ingredient's per-unit column, rounded half to even and clamped at zero |
| `Estimation.TwoMonthExample` | backend/app.py:74-96 | two months with 10 per 100 units and 15 per 150 units have mean ratio 0.1, so 200 predicted units need 20 |
| `Estimation.OverwrittenColumnExample` | backend/app.py:74-96 | with 10 units, 5 of Beans and 20 of `Per Porsi Beans`, 100 predicted units need 50 of Beans and 5, not 200, of `Per Porsi Beans` |
| `Estimation.EstimateRequirements` | backend/app.py:92-96 | the loop fills the table ingredient by ingredient and returns the requirement table, failing on the first undefined mean |
| `Pipeline.Category` | backend/app.py:111 | is the category cell of the new row: Coffee for Americano, Food otherwise; specified by `SuccessfulPredictAppendsForecastRow` |
| `Pipeline.NewEntry` | backend/app.py:108-117 | is `new_entry`: the date, the item, its category, the predicted units and one cell per ingredient; specified by `BuildEntry` and `SuccessfulPredictAppendsForecastRow` |
| `Pipeline.RequiredColumns` | backend/app.py:124 | is `required_columns`: Date, Item Name, Category Name, Item Sold, then the ingredients; specified by `RequiredColumnsKeepIngredients` and `SuccessfulPredictAppendsForecastRow` |
| `Pipeline.ProjectRows` | backend/app.py:120-125 | is `df[required_columns]` on the loaded rows, each keeping only its ingredient cells; specified by `ProjectionKeepsTotals` and `SuccessfulPredictAppendsForecastRow` |
| `Pipeline.PredictOutcome` | backend/app.py:56-125 | is the `/predict` handler on the freshly loaded dataset: the menu check, then `ForecastFrom` on the item's aggregate; specified by `PredictErrors`, `SuccessfulPredictAppendsForecastRow`, `PredictRequirementsFromMeanRatios`, `ForecastFollowsLatestMonth`, `ForecastExtendsHistory`, `PredictKeepsOtherItems` and `RepeatedPredictAdvancesOneMonth` |
| `Pipeline.ForecastFrom` | backend/app.py:79-125 | is the handler once the aggregate is known: the empty-aggregate failure, the model call, the requirements, the next month and the saved table; specified by `ForecastFromParts` and `ForecastFromValue`, and through `PredictOutcome` by the lemmas named there |
| `Pipeline.BuildEntry` | backend/app.py:108-117 | the loop builds the forecast row: item, category, predicted units and one cell per ingredient |
| `Pipeline.PredictErrors` | backend/app.py:61-79 | the request fails with UnknownMenuItem exactly for an item other than Americano and Garlic Fries. It fails with NoHistoricalData exactly when a known item has no row |
| `Pipeline.PredictSucceedsOnDefinedMeans` | backend/app.py:79-96 | a known item with history and a defined mean for every ingredient's per-unit column always gets a forecast |
| `Pipeline.SuccessfulPredictAppendsForecastRow` | backend/app.py:105-125 | success appends exactly one row and keeps every earlier row in order, restricted to the output columns. The header is Date, Item Name, Category Name, Item Sold, then the ingredients. The new row carries the item, its category, the predicted units, every ingredient's non-negative amount and the last day of the reported month |
| `Pipeline.PredictRequirementsFromMeanRatios` | backend/app.py:79-96 | the units are the model's output on the latest month's units sold. Each amount is the units times the mean of that ingredient's per-unit column, rounded and clamped at zero; when no ingredient is named after another's per-unit column, that column is the ingredient's monthly ratios |
| `Pipeline.LatestTotalIsLatestMonth` | backend/app.py:99 | the last aggregate row belongs to the latest month of the item |
| `Pipeline.ForecastFollowsLatestMonth` | backend/app.py:99-105 | the forecast month is the month right after the latest month in which the item has rows |
| `Pipeline.RequiredColumnsKeepIngredients` | backend/app.py:124-125 | the saved header has the same ingredient columns, in the same order, as the loaded one |
| `Pipeline.ProjectionKeepsTotals` | backend/app.py:123-125 | restricting rows to the output columns leaves every item's aggregate unchanged |
| `Pipeline.ForecastExtendsHistory` | backend/app.py:108-129 | reloaded, the saved dataset aggregates to the old aggregate plus one row at the end: the forecast month, with the predicted units and amounts |
| `Pipeline.PredictKeepsOtherItems` | backend/app.py:120-125 | a request for one item leaves every other item's aggregate unchanged |
| `Pipeline.PredictKeepsValidDates` | backend/app.py:105-121 | every date of the saved dataset is a calendar date when every loaded one is |
| `Pipeline.RepeatedPredictAdvancesOneMonth` | backend/app.py:49-129 | a second request on the saved dataset succeeds for any model output, and it forecasts the month after the first forecast |
| `Service.Backend.constructor` | backend/app.py:38-41 | start-up loads the default dataset, and its file becomes the current file |
| `Service.Backend.Predict` | backend/app.py:49-188 | the handler returns what `PredictOutcome` gives on the current file's dataset:<br>- an unreadable file changes nothing;<br>- a failed request keeps the reloaded dataset and leaves the file untouched;<br>- a success keeps the extended dataset and writes it over the current file, which stays current |
| `Service.Backend.Upload` | backend/app.py:192-213 | a missing file part, an empty name and a disallowed extension are refused in that order, and none of them changes anything. An accepted file is saved under its sanitised name and becomes current. The dataset becomes the file's contents, or stays as it was, with UnreadableFile, when the file does not load |

## Left out

- The trained LSTM models and the feature and target scalers (lines 31-36 and 82-89) become the parameter `model` of `Pipeline.PredictOutcome`. The model does not know what the network computes, including the `int(round(...))` of its de-scaled output.
- A failure of the network or of a scaler, or a NaN de-scaled output that makes `int(round(...))` raise (lines 84-89), is not modelled: `model` is a total function to the integers, and `Results.Error` has no case for it.
- A workbook write that fails (lines 128-154) is not modelled: the request is taken to save the dataset. In the source, `df` has already been reassigned to the extended dataset when the write starts.
- The date of the new row is written as `strftime('%Y-%m-%d')` text (line 109). The model keeps it as a `Calendar.Date`, which is the value that text parses back to.
- Spreadsheet parsing and writing (`read_excel`, `ExcelWriter`, the date style, column widths and centred alignment) are not modelled; the folder holds already-parsed datasets. The model assumes that a saved dataset reads back as the dataset that was written.
- The Indonesian locale and the month name in the response (lines 156-178) are left out; `Pipeline.Forecast` reports the year and month as numbers.
- The HTTP layer is left out: JSON bodies, status codes, CORS and the response messages. The errors are the values of `Results.Error`.
- The request body is left out; `menu` is a string. A body without a `menu` key yields `None` in the source, which the menu check refuses just like an unknown item.
- `download_file` (lines 216-221) only sends the current file and is not modelled.
- `secure_filename` and `file.save` are left out: the sanitised name is the parameter `savedName`. Failures while saving are not modelled, including a sanitised name that is empty.
- The start-up read at line 40 (relative to the working directory) and the reads at lines 55-56 (inside the upload folder) are taken to reach the same file.
- Concurrent requests against the shared globals are not modelled; each handler runs to completion before the next.
- Floating point is replaced by exact reals. Rounding (`RoundHalfEven`) is exact on the real product.
- Malformed input is not modelled: a sheet missing the Item Name or Date column, a date pandas cannot parse, a non-numeric extra column, or dates outside the range of pandas timestamps. Every row is assumed to have a parsed date and numeric cells.
- Filenames.Lower: folds only the ASCII capitals A-Z, while Python's `str.lower` also folds capitals of other scripts; names whose extension is spelled with such characters are not modelled.
