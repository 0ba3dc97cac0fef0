/**
 * The Markdown file the script keeps on GitHub: `HEADING` followed by the
 * table rows, written by `update_github_file` and read back by
 * `get_exisiting_entries`, which drops as many lines as `HEADING` holds
 * line breaks.
 *
 * `HEADING` is computed once per run from `datetime.now()`; here the time of
 * the run is the parameter `lastChecked`, the text strftime gives for it.
 */
module StoredFile {
  import opened Text
  import Timestamp
  import Listing

  const Title: string := "# List of Form 8-Ks with item " + Listing.Item
  const ColumnNames: string := "|Company|Timestamp|Link|"
  const ColumnRule: string := "|---|---|---|"

  /** The five lines of `HEADING`: title, time of the run, an empty line, the table header. */
  function HeadingLines(lastChecked: string): seq<string> {
    [Title, "Last checked " + lastChecked, "", ColumnNames, ColumnRule]
  }

  /** `HEADING`: each of its lines followed by "\n". */
  function Heading(lastChecked: string): string {
    Terminated(HeadingLines(lastChecked))
  }

  /** None of the heading's own lines breaks, for a time that does not. */
  lemma HeadingLinesPlain(lastChecked: string)
    requires NoLineBreak(lastChecked)
    ensures PlainLines(HeadingLines(lastChecked))
  {
    var lines := HeadingLines(lastChecked);
    TitlePlain();
    assert NoLineBreak(lines[1]) by {
      var prefix := "Last checked ";
      forall i | 0 <= i < |lines[1]|
        ensures !IsLineBreak(lines[1][i])
      {
        if i >= |prefix| {
          assert lines[1][i] == lastChecked[i - |prefix|];
        }
      }
    }
    assert NoLineBreak(ColumnNames) && NoLineBreak(ColumnRule);
    assert PlainLines(lines[4..]) && PlainLines(lines[3..]) && PlainLines(lines[2..]) && PlainLines(lines[1..]);
  }

  lemma TitlePlain()
    ensures NoLineBreak(Title)
  {
    var prefix := "# List of Form 8-Ks with item ";
    assert NoLineBreak(prefix) && NoLineBreak(Listing.Item);
    assert Title == prefix + Listing.Item;
    forall i | 0 <= i < |Title|
      ensures !IsLineBreak(Title[i])
    {
      if i >= |prefix| {
        assert Title[i] == Listing.Item[i - |prefix|];
      }
    }
  }

  /** `HEADING.count('\n')` is five, whatever the time of the run. */
  lemma HeadingLineCount(lastChecked: string)
    requires Timestamp.CanonicalLayout(lastChecked)
    ensures Count(Heading(lastChecked), '\n') == 5
  {
    Timestamp.CanonicalIsPlain(lastChecked);
    HeadingLinesPlain(lastChecked);
    PlainLinesEach(HeadingLines(lastChecked));
    CountTerminated(HeadingLines(lastChecked));
  }

  /**
   * `full_content`: `HEADING`, then the rows joined by `get_final_string`;
   * an empty join adds nothing, as `entries_to_file if entries_to_file else ''` does.
   */
  function FileContent(lastChecked: string, entries: string): string {
    Heading(lastChecked) + entries
  }

  /**
   * The rows `get_exisiting_entries` finds in a file: `\r` removed, split into
   * lines, and the first `HEADING.count('\n')` lines dropped; a slice past the
   * end is empty.
   */
  function ExistingEntries(lastChecked: string, text: string): seq<string> {
    var lines := SplitLines(RemoveAll(text, '\r'));
    var skip := Count(Heading(lastChecked), '\n');
    if skip <= |lines| then lines[skip..] else []
  }

  /**
   * A file written in one run is read back, in a later run, as the rows that
   * were written: provided no row breaks a line and the last row is not empty.
   */
  lemma StoredRowsRoundTrip(written: string, read: string, rows: seq<string>)
    requires Timestamp.CanonicalLayout(written) && Timestamp.CanonicalLayout(read)
    requires PlainLines(rows)
    requires rows != [] ==> rows[|rows| - 1] != []
    ensures ExistingEntries(read, FileContent(written, Join(rows, "\n"))) == rows
  {
    Timestamp.CanonicalIsPlain(written);
    HeadingLinesPlain(written);
    HeadingLineCount(read);
    RowsAfterHeading(HeadingLines(written), rows);
  }

  /** Any break-free heading lines, then the joined rows: past the heading's lines come the rows. */
  lemma RowsAfterHeading(heading: seq<string>, rows: seq<string>)
    requires PlainLines(heading) && PlainLines(rows)
    requires rows != [] ==> rows[|rows| - 1] != []
    ensures var lines := SplitLines(RemoveAll(Terminated(heading) + Join(rows, "\n"), '\r'));
            |heading| <= |lines| && lines[|heading|..] == rows
  {
    var entries := Join(rows, "\n");
    PlainLinesEach(heading);
    PlainLinesEach(rows);
    assert forall i :: 0 <= i < |heading| ==> '\r' !in heading[i];
    assert forall i :: 0 <= i < |rows| ==> '\r' !in rows[i];
    TerminatedAvoids(heading, '\r');
    JoinAvoids(rows, "\n", '\r');
    RemoveAbsent(Terminated(heading) + entries, '\r');
    SplitLinesAfterTerminated(heading, entries);
    SplitLinesJoin(rows);
    assert (heading + rows)[|heading|..] == rows;
  }
}
