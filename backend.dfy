/** The service state shared by the request handlers: the loaded dataset,
    the name of the dataset file requests work on, and the upload folder,
    each saved file either readable as a dataset or not. */
module Service {
  import opened Results
  import opened Calendar
  import opened Filenames
  import opened Aggregation
  import opened Estimation
  import opened Pipeline

  /** The dataset loaded when the service starts. */
  const DefaultFilename: string := "Data Warung Fotkop.xlsx"

  class Backend {
    /** The dataset in memory. */
    var df: Table
    /** The file that predictions read and rewrite. */
    var latestUploadedFilename: string
    /** The upload folder: the dataset each file holds, or None for a file
        that does not load as a spreadsheet. */
    var files: map<string, Option<Table>>

    predicate Valid()
      reads this
    {
      latestUploadedFilename in files
    }

    /** Start-up: load the default dataset and work on its file. Start-up
        fails unless that file loads. */
    constructor (folder: map<string, Option<Table>>)
      requires DefaultFilename in folder && folder[DefaultFilename].Some?
      ensures Valid()
      ensures df == folder[DefaultFilename].value
      ensures latestUploadedFilename == DefaultFilename
      ensures files == folder
    {
      df := folder[DefaultFilename].value;
      latestUploadedFilename := DefaultFilename;
      files := folder;
    }

    /** The prediction request. It reloads the dataset from the current file,
        then runs the prediction; on success the extended dataset is kept in
        memory and written back over the file. A failed request keeps the
        reloaded dataset and leaves the file as it was. */
    method Predict(menu: string, model: (string, real) -> int) returns (r: Result<Forecast>)
      requires Valid()
      modifies this
      ensures Valid()
      ensures latestUploadedFilename == old(latestUploadedFilename)
      ensures old(files[latestUploadedFilename]).None? ==>
                r == Failure(UnreadableFile) && df == old(df) && files == old(files)
      ensures old(files[latestUploadedFilename]).Some? ==>
                var outcome := PredictOutcome(old(files[latestUploadedFilename]).value, menu, model);
                if outcome.Failure? then
                  r == Failure(outcome.error) && df == old(files[latestUploadedFilename]).value && files == old(files)
                else
                  && r == Success(outcome.value.forecast)
                  && df == outcome.value.table
                  && files == old(files)[latestUploadedFilename := Some(outcome.value.table)]
    {
      var stored := files[latestUploadedFilename];
      if stored.None? {
        return Failure(UnreadableFile);
      }
      df := stored.value;
      assert df == old(files[latestUploadedFilename]).value;
      if menu !in MenuItems {
        return Failure(UnknownMenuItem);
      }
      var ings := Ingredients(df.columns);
      var totals := MonthlyTotals(df.rows, menu, ings);
      var perUnit := ComputePerUnit(totals, ings);
      if |totals| == 0 {
        return Failure(NoHistoricalData);
      }
      var latest := totals[|totals| - 1];
      var units := model(menu, latest.itemSold);
      var reqs := EstimateRequirements(perUnit, ings, units);
      if reqs.Failure? {
        return Failure(reqs.error);
      }
      var next := NextMonth(latest.month);
      var entry := BuildEntry(LastDayOfMonth(next.year, next.month), menu, units, ings, reqs.value);
      var table := Table(RequiredColumns(ings), ProjectRows(df.rows, ings) + [entry]);
      df := table;
      files := files[latestUploadedFilename := Some(table)];
      r := Success(Forecast(menu, units, reqs.value, next.year, next.month));
    }

    /** The upload request. The request may lack a file part, its file name
        may be empty or lack the .xlsx extension; each of these is refused
        and changes nothing. Otherwise the file is saved under its sanitised
        name savedName, which becomes the current file, and is loaded as the
        dataset; a file that does not load leaves the dataset in memory as it
        was, but stays saved and current. */
    method Upload(hasFile: bool, filename: string, savedName: string, content: Option<Table>) returns (r: Result<()>)
      requires Valid()
      modifies this
      ensures Valid()
      ensures !hasFile ==> r == Failure(NoFilePart)
      ensures hasFile && filename == "" ==> r == Failure(EmptyFilename)
      ensures hasFile && filename != "" && !AllowedFile(filename) ==> r == Failure(InvalidFormat)
      ensures r.Success? <==> hasFile && filename != "" && AllowedFile(filename) && content.Some?
      ensures hasFile && filename != "" && AllowedFile(filename) ==>
                && files == old(files)[savedName := content]
                && latestUploadedFilename == savedName
                && df == (if content.Some? then content.value else old(df))
                && (content.None? ==> r == Failure(UnreadableFile))
      ensures !(hasFile && filename != "" && AllowedFile(filename)) ==>
                files == old(files) && latestUploadedFilename == old(latestUploadedFilename) && df == old(df)
    {
      if !hasFile {
        return Failure(NoFilePart);
      }
      if filename == "" {
        return Failure(EmptyFilename);
      }
      if AllowedFile(filename) {
        files := files[savedName := content];
        latestUploadedFilename := savedName;
        if content.None? {
          return Failure(UnreadableFile);
        }
        df := content.value;
        return Success(());
      } else {
        return Failure(InvalidFormat);
      }
    }
  }
}
