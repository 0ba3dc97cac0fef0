/**
 * `main()`: scrape the new rows, read the stored rows back from the file on
 * GitHub, merge them and upload `HEADING` followed by the merged rows.
 *
 * The GitHub file request is the parameter `reply`; the time of the run, from
 * which `HEADING` is built, is `lastChecked`; the SEC listing answers from
 * `responses`, as for `get_8ks`.
 */
module Pipeline {
  import opened Wrappers
  import opened Text
  import Timestamp
  import opened FilingRow
  import opened Merge
  import opened Listing
  import opened StoredFile

  /** What the GitHub contents request gave: a status and the file's text, or a request exception. */
  datatype FileReply = FileReply(status: int, text: string) | RequestError

  /** Why a run uploads nothing: each is an exception that ends `main()`. */
  datatype RunError =
    | ListingNotLoaded(status: int)  // `get_8ks()` returned None and `.splitlines()` on it raised AttributeError
    | FilingFailure(failure: RenderError)
    | ListingUnfinished              // the listing was still being requested when the responses ran out
    | MergeFailure(mergeError: MergeError)

  /**
   * `get_exisiting_entries()`: the rows after the heading when the file was
   * found (status 200), None otherwise.
   */
  function GetExistingEntries(lastChecked: string, reply: FileReply): Option<seq<string>> {
    if reply.FileReply? && reply.status == 200 then Some(ExistingEntries(lastChecked, reply.text))
    else None
  }

  /**
   * The rows a run puts in the file, once `get_8ks()` has ended with
   * `outcome`: the new rows merged with the stored rows.
   */
  function RunRows(lastChecked: string, outcome: FetchOutcome, reply: FileReply): Result<seq<string>, RunError> {
    match outcome
    case NotLoaded(status) => Err(ListingNotLoaded(status))
    case RowFailure(e) => Err(FilingFailure(e))
    case OutOfResponses => Err(ListingUnfinished)
    case Filings(text) =>
      match Merged(SplitLines(text), GetExistingEntries(lastChecked, reply))
      case Err(e) => Err(MergeFailure(e))
      case Ok(rows) => Ok(rows)
  }

  /** The text a run uploads: `HEADING`, then the merged rows joined by "\n". */
  function Upload(lastChecked: string, outcome: FetchOutcome, reply: FileReply): Result<string, RunError> {
    match RunRows(lastChecked, outcome, reply)
    case Err(e) => Err(e)
    case Ok(rows) => Ok(FileContent(lastChecked, Join(rows, "\n")))
  }

  /** `main()`, with the listing answering from `responses`. */
  function Run(lastChecked: string, responses: seq<Response>, reply: FileReply): Result<string, RunError> {
    Upload(lastChecked, Get8KsSpec(responses).outcome, reply)
  }

  /** `main()`: the text it uploads, or the exception that stops it first. */
  method CheckAndUpdate(lastChecked: string, responses: seq<Response>, reply: FileReply)
    returns (upload: Result<string, RunError>)
    ensures upload.Ok? <==> Run(lastChecked, responses, reply).Ok?
    ensures upload.Ok? ==> upload.value == Run(lastChecked, responses, reply).value
    ensures upload.Err? ==> upload.error == Run(lastChecked, responses, reply).error
  {
    var newEntries, _ := Get8Ks(responses);
    assert Run(lastChecked, responses, reply) == Upload(lastChecked, newEntries, reply);
    if newEntries.NotLoaded? {
      return Err(ListingNotLoaded(newEntries.status));
    } else if newEntries.RowFailure? {
      return Err(FilingFailure(newEntries.error));
    } else if newEntries.OutOfResponses? {
      return Err(ListingUnfinished);
    }
    var newRows := SplitLines(newEntries.text);
    var existing := GetExistingEntries(lastChecked, reply);
    var entries := GetFinalString(newRows, existing);
    if entries.Err? {
      return Err(MergeFailure(entries.error));
    }
    upload := Ok(FileContent(lastChecked, entries.value));
  }

  /**
   * A run that gets past the listing fails only in the merge; when the
   * listing page does not load, `main()` stops on `.splitlines()` of None and
   * uploads nothing.
   */
  lemma RunFailures(lastChecked: string, outcome: FetchOutcome, reply: FileReply)
    ensures Upload(lastChecked, outcome, reply).Ok? <==>
              outcome.Filings? && Merged(SplitLines(outcome.text), GetExistingEntries(lastChecked, reply)).Ok?
    ensures outcome.NotLoaded? ==>
              Upload(lastChecked, outcome, reply).Err? && Upload(lastChecked, outcome, reply).error.ListingNotLoaded?
  {
  }

  /**
   * When the file cannot be read (any status but 200, or a request
   * exception), a run uploads `HEADING` and the new rows alone, as on the
   * first run, whatever rows the file already holds.
   */
  lemma RunWithoutStoredFile(lastChecked: string, text: string, reply: FileReply)
    requires !(reply.FileReply? && reply.status == 200)
    ensures Upload(lastChecked, Filings(text), reply).Ok?
    ensures Upload(lastChecked, Filings(text), reply).value == FileContent(lastChecked, Join(SplitLines(text), "\n"))
  {
    MergeWithoutOldRows(SplitLines(text), None);
  }

  /**
   * Against a file an earlier run wrote, a run keeps every stored row, in
   * order, at the end of what it uploads, with only new rows in front.
   */
  lemma RunKeepsStoredRows(written: string, lastChecked: string, text: string, stored: seq<string>)
    requires Timestamp.CanonicalLayout(written) && Timestamp.CanonicalLayout(lastChecked)
    requires PlainLines(stored) && stored != [] && stored[|stored| - 1] != []
    requires RunRows(lastChecked, Filings(text), FileReply(200, FileContent(written, Join(stored, "\n")))).Ok?
    ensures var rows := RunRows(lastChecked, Filings(text), FileReply(200, FileContent(written, Join(stored, "\n")))).value;
            && |stored| <= |rows| <= |SplitLines(text)| + |stored|
            && rows == SplitLines(text)[..|rows| - |stored|] + stored
  {
    StoredRowsRoundTrip(written, lastChecked, stored);
    var newRows := SplitLines(text);
    MergeKeepsOldRowsAfterNewerPrefix(newRows, stored, Merged(newRows, Some(stored)).value);
  }

  /**
   * Run again on the same listing text, a run finds nothing to add: it
   * writes back the rows the first run wrote, under a new heading. The first
   * new row must carry a timestamp column, and the last row written must not
   * be empty (an empty last row vanishes from `splitlines()`).
   */
  lemma RerunAddsNothing(first: string, second: string, text: string, reply: FileReply)
    requires Timestamp.CanonicalLayout(first) && Timestamp.CanonicalLayout(second)
    requires RunRows(first, Filings(text), reply).Ok?
    requires SplitLines(text) != [] ==> TimestampField(SplitLines(text)[0]).Some?
    requires var rows := RunRows(first, Filings(text), reply).value;
             rows != [] ==> rows[|rows| - 1] != []
    ensures var again := RunRows(second, Filings(text), FileReply(200, Upload(first, Filings(text), reply).value));
            again.Ok? && again.value == RunRows(first, Filings(text), reply).value
  {
    var rows := RunRows(first, Filings(text), reply).value;
    var reread := ExistingEntries(second, FileContent(first, Join(rows, "\n")));
    MergedRowsReadBack(first, second, SplitLines(text), GetExistingEntries(first, reply), rows);
    assert GetExistingEntries(second, FileReply(200, Upload(first, Filings(text), reply).value)) == Some(reread);
  }

  /** The merged rows, written under one heading, are read back under another and merged again unchanged. */
  lemma MergedRowsReadBack(first: string, second: string, newRows: seq<string>, storedRows: Option<seq<string>>,
                           rows: seq<string>)
    requires Timestamp.CanonicalLayout(first) && Timestamp.CanonicalLayout(second)
    requires forall i :: 0 <= i < |newRows| ==> NoLineBreak(newRows[i])
    requires storedRows.Some? ==> forall i :: 0 <= i < |storedRows.value| ==> NoLineBreak(storedRows.value[i])
    requires Merged(newRows, storedRows) == Ok(rows)
    requires newRows != [] ==> TimestampField(newRows[0]).Some?
    requires rows != [] ==> rows[|rows| - 1] != []
    ensures ExistingEntries(second, FileContent(first, Join(rows, "\n"))) == rows
    ensures Merged(newRows, Some(rows)) == Ok(rows)
  {
    RowsArePlain(newRows, storedRows, rows);
    StoredRowsRoundTrip(first, second, rows);
    MergeIdempotent(newRows, storedRows, rows);
  }

  /** New rows and stored rows both come out of `splitlines()`, so no merged row breaks a line. */
  lemma RowsArePlain(newRows: seq<string>, storedRows: Option<seq<string>>, rows: seq<string>)
    requires forall i :: 0 <= i < |newRows| ==> NoLineBreak(newRows[i])
    requires storedRows.Some? ==> forall i :: 0 <= i < |storedRows.value| ==> NoLineBreak(storedRows.value[i])
    requires Merged(newRows, storedRows) == Ok(rows)
    ensures PlainLines(rows)
  {
    if storedRows.Some? && storedRows.value != [] {
      MergeKeepsOldRowsAfterNewerPrefix(newRows, storedRows.value, rows);
    }
    EachPlainLines(rows);
  }
}
