/** The HTTP errors the backend raises, by cause, with the status code each one carries. */
module Errors {

  datatype Failure =
    // upload validation (400)
    | BadUploadMode
    | MissingUploadFile
    | MissingUploadFiles
    | ZipRequired
    | CsvRequired
    | NothingUploaded
    | InvalidUploadPath
    | PathsCountMismatch
    | InvalidZipEntry
    | NoDatasetRoot
    // archive management
    | DefaultNotAvailable
    | CurrentAlreadyActive
    | NoArchives
    | ArchiveNotFound(stamp: string)
    | CannotDelete
    // date ranges
    | NoDatedFolders
    | NoTrainFiles
    // an exception the handlers do not catch (corrupt ZIP, a file where a folder is needed, ...)
    | ServerError

  function Status(f: Failure): int {
    match f
    case DefaultNotAvailable | NoArchives | ArchiveNotFound(_) | NoDatedFolders | NoTrainFiles => 404
    case ServerError => 500
    case _ => 400
  }
}
