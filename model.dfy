/**
 * The records the file manager passes around (myrclone7calisiyor.py:17-42)
 * and the shape of one external tool invocation as the model sees it.
 */
module Model {

  import opened Strings

  /** Seconds allowed for one listing invocation. */
  const OPERATION_TIMEOUT: nat := 300
  /** Seconds allowed for one copy invocation. */
  const COPY_TIMEOUT: nat := 600

  /** One listed object; `size` and `modified` are the tool's raw text. */
  datatype FileItem = FileItem(
    name: string,
    path: string,
    isDir: bool,
    size: string,
    modified: string,
    remote: string)

  /** Aggregate of one transfer run. */
  datatype TransferResult = TransferResult(
    successFiles: seq<string>,
    failedFiles: seq<string>,
    errorDetails: map<string, seq<string>>)

  /** Aggregate of one comparison run; pairs are (left entry, right entry). */
  datatype ComparisonResult = ComparisonResult(
    leftOnly: seq<FileItem>,
    rightOnly: seq<FileItem>,
    different: seq<(FileItem, FileItem)>,
    same: seq<(FileItem, FileItem)>)

  /** What one external tool invocation came to: it finished with an exit
      code and its captured output, it overran its time budget, or starting
      or waiting for it raised some other exception with a message. */
  datatype Invocation =
    | Finished(returnCode: int, output: string)
    | TimedOut
    | Raised(message: string)

  /** `f"Timeout ({seconds//60} dakika)"`. */
  function TimeoutMessage(seconds: nat): string {
    "Timeout (" + IntToString(seconds / 60) + " dakika)"
  }
}
