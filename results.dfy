/** Error taxonomy of the forecasting backend and the value-or-error wrappers
    that its operations return instead of raising. */
module Results {

  /** Every way a request can be refused or fail. */
  datatype Error =
    | UnknownMenuItem    // the menu is neither "Americano" nor "Garlic Fries"
    | NoHistoricalData   // no row of the menu item, so the latest month does not exist
    | NonFiniteRatio     // a mean per-unit ratio is NaN or infinite, so it cannot be rounded
    | UnreadableFile     // the backing file is not a readable workbook
    | NoFilePart         // the upload request carries no file
    | EmptyFilename      // the uploaded file has an empty name
    | InvalidFormat      // the uploaded file name does not end in an .xlsx extension

  datatype Result<+T> = Success(value: T) | Failure(error: Error)

  datatype Option<+T> = None | Some(value: T)
}
