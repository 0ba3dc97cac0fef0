/**
 * `get_8ks`: walk the SEC "latest filings" listing page by page, keep each
 * pair of adjacent rows whose second row announces a current report with the
 * item code, and render every kept pair as a table row.
 *
 * The HTTP session is replaced by the responses it would give, one per
 * request and in order; BeautifulSoup by the rows and `<input>` values of
 * each page.
 */
module Listing {
  import opened Wrappers
  import opened Text
  import opened FilingRow

  /** `ITEM`: the 8-K item code looked for (the value when not testing). */
  const Item: string := "1.05"

  /** `FILINGS_PER_PAGE`: how many filings one listing page shows. */
  const FilingsPerPage: nat := 100

  const CurrentReport: string := "Current report"

  /** Everything of a listing URL before the start offset. */
  const ListingQuery: string :=
    "https://www.sec.gov/cgi-bin/browse-edgar?action=getcurrent"
    + "&datea=&dateb=&company=&type=8-k&SIC=&State=&Country=&CIK=&owner="
    + "include&accno=&start="

  /** `get_sec_url(index)`: the listing page that starts at filing `index`. */
  function SecUrl(index: nat): string {
    ListingQuery + NatToString(index) + "&count=" + NatToString(FilingsPerPage)
  }

  /**
   * The start offset can be read back from a listing URL: after the query
   * come the decimal digits of `index`, up to the next `&`.
   */
  lemma SecUrlCarriesIndex(index: nat)
    ensures ListingQuery <= SecUrl(index)
    ensures var tail := SecUrl(index)[|ListingQuery|..];
            var digits := tail[..IndexOf(tail, '&')];
            AllDigits(digits) && DecimalValue(digits) == index
  {
    var url := SecUrl(index);
    var n := NatToString(index);
    var tail := url[|ListingQuery|..];
    assert url == ListingQuery + (n + "&count=" + NatToString(FilingsPerPage));
    assert tail == n + "&count=" + NatToString(FilingsPerPage);
    assert tail[|n|] == '&';
    assert tail[..|n|] == n;
    assert IndexOf(tail, '&') == |n|;
    DecimalRoundTrip(index);
  }

  /** Distinct offsets give distinct URLs: no page is requested in place of another. */
  lemma SecUrlInjective(i: nat, j: nat)
    ensures SecUrl(i) == SecUrl(j) <==> i == j
  {
    SecUrlCarriesIndex(i);
    SecUrlCarriesIndex(j);
  }

  /** A listing page as the script reads it: its `<tr>` rows in document order, and the `value` of each `<input>`. */
  datatype Page = Page(rows: seq<ListingRow>, inputValues: seq<string>)

  /** What one request gives: a reply with its status code, or one of the exceptions the loop catches. */
  datatype Response =
    | Reply(status: int, page: Page)
    | Timeout          // `requests.Timeout`
    | RequestFailure   // any other `requests.RequestException`

  predicate IsTransportFailure(r: Response) {
    r.Timeout? || r.RequestFailure?
  }

  /** The label of the control that leads to the next page, written out. */
  const NextLabel: string := "Next 100"

  /** The label is `f'Next {FILINGS_PER_PAGE}'`. */
  lemma NextLabelNamesPageSize()
    ensures NextLabel == "Next " + NatToString(FilingsPerPage)
  {
    assert NatToString(FilingsPerPage) == "100";
  }

  /** `soup.find('input', {'value': f'Next {FILINGS_PER_PAGE}'})` finds something. */
  predicate HasNextPage(page: Page) {
    NextLabel in page.inputValues
  }

  /** `"Current report" in text` and `ITEM in text`. */
  predicate Announces(text: string) {
    Contains(text, CurrentReport) && Contains(text, Item)
  }

  /** A test on the text of a row; the script's is `Announces`. */
  type RowTest = string -> bool

  /** The pairs `(prev_tr, current_tr)` the `zip` loop keeps under `keep`, in document order. */
  function PairsWhere(keep: RowTest, rows: seq<ListingRow>): seq<(ListingRow, ListingRow)>
    decreases |rows|
  {
    if |rows| < 2 then []
    else
      var last := |rows| - 1;
      PairsWhere(keep, rows[..last])
        + (if keep(rows[last].text) then [(rows[last - 1], rows[last])] else [])
  }

  /** The pairs the script keeps: those whose second row announces a qualifying filing. */
  function QualifyingPairs(rows: seq<ListingRow>): seq<(ListingRow, ListingRow)> {
    PairsWhere(Announces, rows)
  }

  /** The positions of the rows, after the first, that pass `keep`, in increasing order. */
  function RowsWhere(keep: RowTest, rows: seq<ListingRow>): (idx: seq<nat>)
    ensures forall j :: 0 <= j < |idx| ==> 1 <= idx[j] < |rows|
    decreases |rows|
  {
    if |rows| < 2 then []
    else
      var last := |rows| - 1;
      RowsWhere(keep, rows[..last]) + (if keep(rows[last].text) then [last] else [])
  }

  /** Exactly the rows after the first that pass the test are listed, in increasing order. */
  lemma {:induction false} RowsWhereExactly(keep: RowTest, rows: seq<ListingRow>)
    ensures forall j :: 0 <= j < |RowsWhere(keep, rows)| ==> keep(rows[RowsWhere(keep, rows)[j]].text)
    ensures forall j, k :: 0 <= j < k < |RowsWhere(keep, rows)| ==> RowsWhere(keep, rows)[j] < RowsWhere(keep, rows)[k]
    ensures forall i :: 1 <= i < |rows| && keep(rows[i].text) ==> i in RowsWhere(keep, rows)
  {
    if |rows| >= 2 {
      var last := |rows| - 1;
      var front := rows[..last];
      RowsWhereExactly(keep, front);
      var idx := RowsWhere(keep, front);
      assert forall j :: 0 <= j < |idx| ==> rows[idx[j]] == front[idx[j]];
      if keep(rows[last].text) {
        assert RowsWhere(keep, rows) == idx + [last];
      } else {
        assert RowsWhere(keep, rows) == idx;
      }
    }
  }

  /**
   * The kept pairs are exactly the rows that pass the test, each with the row
   * just before it: one pair per such row, in the same order.
   */
  lemma {:induction false} PairsAreKeptRowsWithPredecessor(keep: RowTest, rows: seq<ListingRow>)
    ensures |PairsWhere(keep, rows)| == |RowsWhere(keep, rows)|
    ensures forall j :: 0 <= j < |PairsWhere(keep, rows)| ==>
              PairsWhere(keep, rows)[j] == (rows[RowsWhere(keep, rows)[j] - 1], rows[RowsWhere(keep, rows)[j]])
  {
    if |rows| >= 2 {
      var last := |rows| - 1;
      var front := rows[..last];
      PairsAreKeptRowsWithPredecessor(keep, front);
      var pairs, idx := PairsWhere(keep, front), RowsWhere(keep, front);
      forall j | 0 <= j < |pairs|
        ensures pairs[j] == (rows[idx[j] - 1], rows[idx[j]])
      {
        assert front[idx[j] - 1] == rows[idx[j] - 1] && front[idx[j]] == rows[idx[j]];
      }
      if keep(rows[last].text) {
        assert PairsWhere(keep, rows) == pairs + [(rows[last - 1], rows[last])];
        assert RowsWhere(keep, rows) == idx + [last];
      } else {
        assert PairsWhere(keep, rows) == pairs;
        assert RowsWhere(keep, rows) == idx;
      }
    }
  }

  /** The pair-selection loop of `get_8ks` over the rows of one page. */
  method SelectPairs(rows: seq<ListingRow>) returns (pairs: seq<(ListingRow, ListingRow)>)
    ensures pairs == QualifyingPairs(rows)
  {
    pairs := [];
    var following := if rows == [] then [] else rows[1..];
    for k := 0 to |following|
      invariant rows != [] ==> pairs == PairsWhere(Announces, rows[..k + 1])
      invariant rows == [] ==> pairs == []
    {
      var prev, current := rows[k], following[k];
      if Announces(current.text) {
        pairs := pairs + [(prev, current)];
      }
      assert rows[..k + 2][..k + 1] == rows[..k + 1];
    }
    if rows != [] {
      assert rows[..|following| + 1] == rows;
    }
  }

  /** `get_filing_info` applied to each kept pair, in order. */
  function Rendered(pairs: seq<(ListingRow, ListingRow)>): (results: seq<Result<string, RenderError>>)
    ensures |results| == |pairs|
    ensures forall j :: 0 <= j < |pairs| ==> results[j] == GetFilingInfo(pairs[j].0, pairs[j].1)
    decreases |pairs|
  {
    if pairs == [] then []
    else [GetFilingInfo(pairs[0].0, pairs[0].1)] + Rendered(pairs[1..])
  }

  /**
   * `relevant_filings += row` over the rendered rows: their concatenation,
   * or the first failure, which leaves `get_8ks` as an exception.
   */
  function Collect(results: seq<Result<string, RenderError>>): Result<string, RenderError>
    decreases |results|
  {
    if results == [] then Ok("")
    else
      var last := |results| - 1;
      match Collect(results[..last])
      case Err(e) => Err(e)
      case Ok(text) =>
        match results[last]
        case Err(e) => Err(e)
        case Ok(row) => Ok(text + row)
  }

  /** The rows of the pairs of one page, concatenated, or the first failure. */
  function RenderAll(pairs: seq<(ListingRow, ListingRow)>): Result<string, RenderError> {
    Collect(Rendered(pairs))
  }

  /** Every result is a row. */
  predicate AllOk(results: seq<Result<string, RenderError>>) {
    forall j :: 0 <= j < |results| ==> results[j].Ok?
  }

  /** The rows of results that are all rows, concatenated in order. */
  function Concat(results: seq<Result<string, RenderError>>): string
    requires AllOk(results)
  {
    if results == [] then "" else results[0].value + Concat(results[1..])
  }

  lemma {:induction false} ConcatLast(results: seq<Result<string, RenderError>>)
    requires results != [] && AllOk(results)
    ensures Concat(results) == Concat(results[..|results| - 1]) + results[|results| - 1].value
  {
    if |results| > 1 {
      assert results[1..][..|results| - 2] == results[..|results| - 1][1..];
      ConcatLast(results[1..]);
    }
  }

  /** Collecting succeeds exactly when every result is a row, and then gives the rows in order. */
  lemma {:induction false} CollectSucceedsOnRows(results: seq<Result<string, RenderError>>)
    ensures Collect(results).Ok? <==> AllOk(results)
    ensures Collect(results).Ok? ==> Collect(results).value == Concat(results)
    decreases |results|
  {
    if results != [] {
      var last := |results| - 1;
      var front := results[..last];
      CollectSucceedsOnRows(front);
      assert forall j :: 0 <= j < last ==> front[j] == results[j];
      if AllOk(results) {
        ConcatLast(results);
      }
    }
  }

  /** Result `j` is an error `e` and every result before it is a row. */
  predicate FirstFailureAt(results: seq<Result<string, RenderError>>, j: nat, e: RenderError)
    requires j < |results|
  {
    results[j] == Err(e) && forall i :: 0 <= i < j ==> results[i].Ok?
  }

  /** A failed collection reports the first error: every result before it is a row. */
  lemma {:induction false} CollectReportsFirstFailure(results: seq<Result<string, RenderError>>)
    requires Collect(results).Err?
    ensures exists j :: 0 <= j < |results| && FirstFailureAt(results, j, Collect(results).error)
    decreases |results|
  {
    var last := |results| - 1;
    var front := results[..last];
    assert forall j :: 0 <= j < last ==> front[j] == results[j];
    if Collect(front).Err? {
      CollectReportsFirstFailure(front);
      var j :| 0 <= j < |front| && FirstFailureAt(front, j, Collect(front).error);
      assert FirstFailureAt(results, j, Collect(results).error);
    } else {
      CollectSucceedsOnRows(front);
      assert FirstFailureAt(results, last, Collect(results).error);
    }
  }

  /** Once a prefix of the results fails, collecting them all fails the same way. */
  lemma {:induction false} CollectKeepsFirstFailure(results: seq<Result<string, RenderError>>, n: nat)
    requires n <= |results| && Collect(results[..n]).Err?
    ensures Collect(results) == Collect(results[..n])
    decreases |results| - n
  {
    if n < |results| {
      assert results[..n + 1][..n] == results[..n];
      CollectKeepsFirstFailure(results, n + 1);
    } else {
      assert results[..n] == results;
    }
  }

  /** Collecting one more result extends the text of a collection that succeeded so far, or fails with it. */
  lemma CollectStep(results: seq<Result<string, RenderError>>, j: nat)
    requires j < |results| && Collect(results[..j]).Ok?
    ensures results[j].Ok? ==> Collect(results[..j + 1]) == Ok(Collect(results[..j]).value + results[j].value)
    ensures results[j].Err? ==> Collect(results[..j + 1]) == Err(results[j].error)
  {
    assert results[..j + 1][..j] == results[..j];
  }

  /** The rendering loop of `get_8ks` over the kept pairs of one page. */
  method RenderPairs(pairs: seq<(ListingRow, ListingRow)>) returns (result: Result<string, RenderError>)
    ensures result == RenderAll(pairs)
  {
    ghost var results := Rendered(pairs);
    var text := "";
    for j := 0 to |pairs|
      invariant Collect(results[..j]) == Ok(text)
    {
      var row := GetFilingInfo(pairs[j].0, pairs[j].1);
      CollectStep(results, j);
      if row.Err? {
        CollectKeepsFirstFailure(results, j + 1);
        return Err(row.error);
      }
      text := text + row.value;
    }
    assert results[..|pairs|] == results;
    result := Ok(text);
  }

  /** Every pair has plain lookups: no `|` and no line break in its link text or href. */
  predicate PlainPairs(pairs: seq<(ListingRow, ListingRow)>) {
    forall j :: 0 <= j < |pairs| ==> PlainLookups(pairs[j].0, pairs[j].1)
  }

  /** Each rendered row without its closing "\n": the line `splitlines()` gives back for it. */
  function Lines(results: seq<Result<string, RenderError>>): (lines: seq<string>)
    requires AllOk(results)
    ensures |lines| == |results|
    ensures forall j :: 0 <= j < |results| ==> lines[j] == Chomp(results[j].value)
  {
    seq(|results|, j requires 0 <= j < |results| => Chomp(results[j].value))
  }

  /**
   * Plain pairs that all render give one line each: the row is that line and
   * "\n", the line breaks nowhere, and its `split('|')[2]` is the filing's
   * reformatted timestamp.
   */
  lemma {:induction false} LinesCarryStamps(pairs: seq<(ListingRow, ListingRow)>)
    requires AllOk(Rendered(pairs)) && PlainPairs(pairs)
    ensures forall j :: 0 <= j < |pairs| ==>
              && Rendered(pairs)[j].value == Lines(Rendered(pairs))[j] + "\n"
              && NoLineBreak(Lines(Rendered(pairs))[j])
              && pairs[j].1.timeCellText.Some?
              && TimestampField(Lines(Rendered(pairs))[j]) == Timestamp.Reformat(pairs[j].1.timeCellText.value)
  {
    var results := Rendered(pairs);
    var lines := Lines(results);
    forall j | 0 <= j < |pairs|
      ensures && results[j].value == lines[j] + "\n"
              && NoLineBreak(lines[j])
              && pairs[j].1.timeCellText.Some?
              && TimestampField(lines[j]) == Timestamp.Reformat(pairs[j].1.timeCellText.value)
    {
      RenderedLine(pairs, j);
    }
  }

  lemma {:induction false} RenderedLine(pairs: seq<(ListingRow, ListingRow)>, j: nat)
    requires j < |pairs| && AllOk(Rendered(pairs)) && PlainLookups(pairs[j].0, pairs[j].1)
    ensures Rendered(pairs)[j].value == Lines(Rendered(pairs))[j] + "\n"
    ensures NoLineBreak(Lines(Rendered(pairs))[j])
    ensures pairs[j].1.timeCellText.Some?
    ensures TimestampField(Lines(Rendered(pairs))[j]) == Timestamp.Reformat(pairs[j].1.timeCellText.value)
  {
    var row := Rendered(pairs)[j].value;
    assert GetFilingInfo(pairs[j].0, pairs[j].1) == Ok(row);
    FilingRowIsOneLine(pairs[j].0, pairs[j].1);
    ChompLine(row);
  }

  /** Rows that each end one line, concatenated, are their lines each followed by "\n". */
  lemma {:induction false} ConcatTerminated(results: seq<Result<string, RenderError>>)
    requires AllOk(results)
    requires forall j :: 0 <= j < |results| ==> results[j].value == Lines(results)[j] + "\n"
    ensures Concat(results) == Terminated(Lines(results))
  {
    if results != [] {
      var later := results[1..];
      assert Lines(results)[1..] == Lines(later);
      assert forall j :: 0 <= j < |later| ==> later[j].value == Lines(later)[j] + "\n" by {
        forall j | 0 <= j < |later| ensures later[j].value == Lines(later)[j] + "\n" {
          assert later[j] == results[j + 1];
        }
      }
      ConcatTerminated(later);
    }
  }

  /**
   * The rows of plain pairs that all render, followed by any text, come back
   * from `splitlines()` as the pairs' lines, in order, ahead of the lines of
   * what follows.
   */
  lemma {:induction false} RenderedRowsReadBack(pairs: seq<(ListingRow, ListingRow)>, rest: string)
    requires AllOk(Rendered(pairs)) && PlainPairs(pairs)
    ensures RenderAll(pairs).Ok?
    ensures SplitLines(RenderAll(pairs).value + rest) == Lines(Rendered(pairs)) + SplitLines(rest)
  {
    var results := Rendered(pairs);
    CollectSucceedsOnRows(results);
    LinesCarryStamps(pairs);
    ConcatTerminated(results);
    SplitLinesAfterTerminated(Lines(results), rest);
  }

  /** The text one 200 page adds, or why `get_8ks` stops on it. */
  function ProcessPage(page: Page): Result<string, RenderError> {
    RenderAll(QualifyingPairs(page.rows))
  }

  /**
   * What the page loop does with a page that loaded. The loop's lemmas hold
   * for any such function; `get_8ks` uses `ProcessPage`.
   */
  type PageProcessor = Page -> Result<string, RenderError>

  /** How `get_8ks` ends. */
  datatype FetchOutcome =
    | Filings(text: string)           // it returns the rows of every page
    | NotLoaded(status: int)          // a status other than 200: it returns None
    | RowFailure(error: RenderError)  // `get_filing_info` raised, and nothing catches it
    | OutOfResponses                  // the loop was still going when the responses ran out

  /** The outcome, and the start offset of every page requested, in order. */
  datatype Crawl = Crawl(outcome: FetchOutcome, offsets: seq<nat>)

  /** The loop goes on after this response: a transport failure, or a page fully processed that has a next page. */
  predicate Continues(process: PageProcessor, r: Response) {
    || IsTransportFailure(r)
    || (r.status == 200 && process(r.page).Ok? && HasNextPage(r.page))
  }

  /**
   * The page loop of `get_8ks` from offset `index`, with `acc` already
   * gathered, answered by `responses`: a transport failure requests the same
   * offset again; a fully processed page with a next page moves on by
   * `FilingsPerPage`.
   */
  function CrawlFrom(process: PageProcessor, responses: seq<Response>, index: nat, acc: string): Crawl
    decreases |responses|
  {
    if responses == [] then Crawl(OutOfResponses, [])
    else
      var rest := responses[1..];
      match responses[0]
      case Timeout => Requested(index, CrawlFrom(process, rest, index, acc))
      case RequestFailure => Requested(index, CrawlFrom(process, rest, index, acc))
      case Reply(status, page) =>
        if status != 200 then Crawl(NotLoaded(status), [index])
        else match process(page)
          case Err(e) => Crawl(RowFailure(e), [index])
          case Ok(text) =>
            if !HasNextPage(page) then Crawl(Filings(acc + text), [index])
            else Requested(index, CrawlFrom(process, rest, index + FilingsPerPage, acc + text))
  }

  function Requested(index: nat, c: Crawl): Crawl {
    c.(offsets := [index] + c.offsets)
  }

  /** `get_8ks()`: the whole crawl, from offset 0 with nothing gathered. */
  function Get8KsSpec(responses: seq<Response>): Crawl {
    CrawlFrom(ProcessPage, responses, 0, "")
  }

  /**
   * The requests: one per response consumed, the first at `index`; the offset
   * stays put after a transport failure and grows by `FilingsPerPage` after a
   * page, and only a response after which the loop goes on is followed by
   * another request.
   */
  lemma {:induction false} CrawlOffsets(process: PageProcessor, responses: seq<Response>, index: nat, acc: string)
    ensures |CrawlFrom(process, responses, index, acc).offsets| <= |responses|
    ensures responses != [] ==>
              CrawlFrom(process, responses, index, acc).offsets != [] && CrawlFrom(process, responses, index, acc).offsets[0] == index
    ensures forall k :: 0 <= k < |CrawlFrom(process, responses, index, acc).offsets| - 1 ==> Continues(process, responses[k])
    ensures forall k :: 0 <= k < |CrawlFrom(process, responses, index, acc).offsets| - 1 ==>
              CrawlFrom(process, responses, index, acc).offsets[k + 1]
                == CrawlFrom(process, responses, index, acc).offsets[k] + (if responses[k].Reply? then FilingsPerPage else 0)
    decreases |responses|
  {
    if responses != [] {
      var rest := responses[1..];
      var r := responses[0];
      var c := CrawlFrom(process, responses, index, acc);
      if IsTransportFailure(r) {
        CrawlOffsets(process, rest, index, acc);
        var c' := CrawlFrom(process, rest, index, acc);
        assert c.offsets == [index] + c'.offsets;
        forall k | 0 <= k < |c.offsets| - 1
          ensures Continues(process, responses[k])
          ensures c.offsets[k + 1] == c.offsets[k] + (if responses[k].Reply? then FilingsPerPage else 0)
        {
          if k > 0 { assert responses[k] == rest[k - 1]; }
        }
      } else if r.status == 200 && process(r.page).Ok? && HasNextPage(r.page) {
        var acc' := acc + process(r.page).value;
        CrawlOffsets(process, rest, index + FilingsPerPage, acc');
        var c' := CrawlFrom(process, rest, index + FilingsPerPage, acc');
        assert c.offsets == [index] + c'.offsets;
        forall k | 0 <= k < |c.offsets| - 1
          ensures Continues(process, responses[k])
          ensures c.offsets[k + 1] == c.offsets[k] + (if responses[k].Reply? then FilingsPerPage else 0)
        {
          if k > 0 { assert responses[k] == rest[k - 1]; }
        }
      }
    }
  }

  /** Why the loop stops on this response with this outcome. */
  predicate EndsWith(process: PageProcessor, r: Response, outcome: FetchOutcome) {
    match outcome
    case NotLoaded(status) => r.Reply? && r.status == status && status != 200
    case RowFailure(e) => r.Reply? && r.status == 200 && process(r.page) == Err(e)
    case Filings(_) => r.Reply? && r.status == 200 && process(r.page).Ok? && !HasNextPage(r.page)
    case OutOfResponses => false
  }

  /**
   * The crawl runs out of responses exactly when it would go on after every
   * one of them; otherwise the last response it consumed is the one that
   * ends it: a status other than 200, a row that does not render, or a page
   * without a next page.
   */
  lemma {:induction false} CrawlEnds(process: PageProcessor, responses: seq<Response>, index: nat, acc: string)
    ensures CrawlFrom(process, responses, index, acc).outcome.OutOfResponses? <==>
              forall k :: 0 <= k < |responses| ==> Continues(process, responses[k])
    ensures CrawlFrom(process, responses, index, acc).outcome.OutOfResponses? ==>
              |CrawlFrom(process, responses, index, acc).offsets| == |responses|
    ensures !CrawlFrom(process, responses, index, acc).outcome.OutOfResponses? ==>
              var n := |CrawlFrom(process, responses, index, acc).offsets|;
              1 <= n <= |responses| && EndsWith(process, responses[n - 1], CrawlFrom(process, responses, index, acc).outcome)
    decreases |responses|
  {
    if responses != [] {
      var rest := responses[1..];
      var r := responses[0];
      assert forall k :: 1 <= k < |responses| ==> responses[k] == rest[k - 1];
      if IsTransportFailure(r) {
        CrawlEnds(process, rest, index, acc);
      } else if r.status == 200 && process(r.page).Ok? && HasNextPage(r.page) {
        CrawlEnds(process, rest, index + FilingsPerPage, acc + process(r.page).value);
      } else {
        assert !Continues(process, responses[0]);
      }
    }
  }

  /** What a response adds to the gathered rows: the rows of a 200 page that renders, else nothing. */
  function PageText(process: PageProcessor, r: Response): string {
    if r.Reply? && r.status == 200 && process(r.page).Ok? then process(r.page).value else ""
  }

  function PagesText(process: PageProcessor, responses: seq<Response>): string {
    if responses == [] then "" else PageText(process, responses[0]) + PagesText(process, responses[1..])
  }

  /** A finished crawl returns the rows of every page it processed, in page order, after `acc`. */
  lemma {:induction false} CrawlGathersPageText(process: PageProcessor, responses: seq<Response>, index: nat, acc: string)
    requires CrawlFrom(process, responses, index, acc).outcome.Filings?
    ensures |CrawlFrom(process, responses, index, acc).offsets| <= |responses|
    ensures CrawlFrom(process, responses, index, acc).outcome.text
              == acc + PagesText(process, responses[..|CrawlFrom(process, responses, index, acc).offsets|])
    decreases |responses|
  {
    var rest := responses[1..];
    var r := responses[0];
    var c := CrawlFrom(process, responses, index, acc);
    if IsTransportFailure(r) {
      CrawlGathersPageText(process, rest, index, acc);
      var n := |c.offsets|;
      assert responses[..n][1..] == rest[..n - 1];
    } else if HasNextPage(r.page) {
      var acc' := acc + process(r.page).value;
      CrawlGathersPageText(process, rest, index + FilingsPerPage, acc');
      var n := |c.offsets|;
      assert responses[..n][1..] == rest[..n - 1];
    } else {
      assert responses[..1][1..] == [];
    }
  }

  /** The responses without the transport failures. */
  function Replies(responses: seq<Response>): (rs: seq<Response>)
    ensures forall k :: 0 <= k < |rs| ==> rs[k].Reply?
  {
    if responses == [] then []
    else if IsTransportFailure(responses[0]) then Replies(responses[1..])
    else [responses[0]] + Replies(responses[1..])
  }

  /** Transport failures only cost a retry: without them the crawl ends the same way. */
  lemma {:induction false} CrawlIgnoresTransportFailures(process: PageProcessor, responses: seq<Response>, index: nat, acc: string)
    ensures CrawlFrom(process, Replies(responses), index, acc).outcome == CrawlFrom(process, responses, index, acc).outcome
    decreases |responses|
  {
    if responses != [] {
      var rest := responses[1..];
      var r := responses[0];
      if IsTransportFailure(r) {
        CrawlIgnoresTransportFailures(process, rest, index, acc);
      } else {
        var rs := Replies(responses);
        assert rs[0] == r && rs[1..] == Replies(rest);
        if r.status == 200 && process(r.page).Ok? && HasNextPage(r.page) {
          CrawlIgnoresTransportFailures(process, rest, index + FilingsPerPage, acc + process(r.page).value);
        }
      }
    }
  }

  /** The pages of a listing, each answered with status 200. */
  function AsReplies(pages: seq<Page>): (rs: seq<Response>)
    ensures |rs| == |pages| && forall k :: 0 <= k < |pages| ==> rs[k] == Reply(200, pages[k])
  {
    seq(|pages|, k requires 0 <= k < |pages| => Reply(200, pages[k]))
  }

  /** Every page renders, every page but the last has a next page, and the last has none. */
  predicate WellFormedListing(process: PageProcessor, pages: seq<Page>) {
    && pages != []
    && (forall k :: 0 <= k < |pages| ==> process(pages[k]).Ok?)
    && (forall k :: 0 <= k < |pages| - 1 ==> HasNextPage(pages[k]))
    && !HasNextPage(pages[|pages| - 1])
  }

  /**
   * Served a listing of N pages without failures, the crawl makes exactly N
   * requests, at offsets 0, 100, 200, … from `index`, and returns the rows of
   * all N pages.
   */
  lemma {:induction false} CrawlOfListing(process: PageProcessor, pages: seq<Page>, index: nat, acc: string)
    requires WellFormedListing(process, pages)
    ensures CrawlFrom(process, AsReplies(pages), index, acc)
              == Crawl(Filings(acc + PagesText(process, AsReplies(pages))),
                       seq(|pages|, k => index + FilingsPerPage * k))
    decreases |pages|
  {
    var rs := AsReplies(pages);
    var text := process(pages[0]).value;
    if |pages| == 1 {
      assert rs[0] == Reply(200, pages[0]) && rs[1..] == [];
      assert PagesText(process, rs) == text + "" == text;
      assert CrawlFrom(process, rs, index, acc) == Crawl(Filings(acc + text), [index]);
      assert seq(|pages|, k => index + FilingsPerPage * k) == [index];
    } else {
      var rest := pages[1..];
      assert rs[1..] == AsReplies(rest);
      assert rs[0] == Reply(200, pages[0]) && HasNextPage(pages[0]);
      assert WellFormedListing(process, rest);
      CrawlOfListing(process, rest, index + FilingsPerPage, acc + text);
      var later := CrawlFrom(process, rs[1..], index + FilingsPerPage, acc + text);
      assert CrawlFrom(process, rs, index, acc) == Requested(index, later);
      assert PagesText(process, rs) == text + PagesText(process, rs[1..]);
      assert acc + (text + PagesText(process, rs[1..])) == acc + text + PagesText(process, rs[1..]);
      assert seq(|pages|, k => index + FilingsPerPage * k)
             == [index] + seq(|rest|, k => index + FilingsPerPage + FilingsPerPage * k);
    }
  }

  /** The kept pairs of every page of a listing, page after page. */
  function ListingPairs(pages: seq<Page>): seq<(ListingRow, ListingRow)> {
    if pages == [] then [] else QualifyingPairs(pages[0].rows) + ListingPairs(pages[1..])
  }

  /**
   * Served a listing of N pages whose kept pairs are plain, `get_8ks()`
   * returns text that `splitlines()` cuts into one line per kept pair, page
   * after page and in document order; each line is its filing's row without
   * the closing "\n", and its `split('|')[2]` is the filing's reformatted
   * timestamp. The rows the merge reads are the rows `get_filing_info` built.
   */
  lemma {:induction false} ListingRowsReadBack(pages: seq<Page>)
    requires WellFormedListing(ProcessPage, pages) && PlainPairs(ListingPairs(pages))
    ensures Get8KsSpec(AsReplies(pages)).outcome.Filings?
    ensures var lines := SplitLines(Get8KsSpec(AsReplies(pages)).outcome.text);
            var pairs := ListingPairs(pages);
            && |lines| == |pairs|
            && forall j :: 0 <= j < |lines| ==>
                 && GetFilingInfo(pairs[j].0, pairs[j].1) == Ok(lines[j] + "\n")
                 && pairs[j].1.timeCellText.Some?
                 && TimestampField(lines[j]) == Timestamp.Reformat(pairs[j].1.timeCellText.value)
  {
    var pairs := ListingPairs(pages);
    CrawlOfListing(ProcessPage, pages, 0, "");
    PagesReadBack(pages, "");
    LinesCarryStamps(pairs);
    var text := PagesText(ProcessPage, AsReplies(pages));
    assert text + "" == "" + text;
    assert Lines(Rendered(pairs)) + [] == Lines(Rendered(pairs));
  }

  lemma {:induction false} PagesReadBack(pages: seq<Page>, rest: string)
    requires forall k :: 0 <= k < |pages| ==> ProcessPage(pages[k]).Ok?
    requires PlainPairs(ListingPairs(pages))
    ensures AllOk(Rendered(ListingPairs(pages)))
    ensures SplitLines(PagesText(ProcessPage, AsReplies(pages)) + rest)
            == Lines(Rendered(ListingPairs(pages))) + SplitLines(rest)
    decreases |pages|
  {
    if pages == [] {
      assert PagesText(ProcessPage, AsReplies(pages)) + rest == rest;
    } else {
      var first, later := QualifyingPairs(pages[0].rows), pages[1..];
      var rs := AsReplies(pages);
      assert rs[0] == Reply(200, pages[0]) && rs[1..] == AsReplies(later);
      PlainPairsSplit(first, ListingPairs(later));
      assert forall k :: 0 <= k < |later| ==> ProcessPage(later[k]).Ok? by {
        forall k | 0 <= k < |later| ensures ProcessPage(later[k]).Ok? {
          assert later[k] == pages[k + 1];
        }
      }
      PagesReadBack(later, rest);
      var later_text := PagesText(ProcessPage, AsReplies(later));
      assert PagesText(ProcessPage, rs) == RenderAll(first).value + later_text;
      FirstPageReadBack(first, ListingPairs(later), later_text, rest);
    }
  }

  /** The rows of one page's pairs read back ahead of the lines of the pages after it. */
  lemma {:induction false} FirstPageReadBack(first: seq<(ListingRow, ListingRow)>, later: seq<(ListingRow, ListingRow)>,
                                             later_text: string, rest: string)
    requires RenderAll(first).Ok? && PlainPairs(first) && AllOk(Rendered(later))
    requires SplitLines(later_text + rest) == Lines(Rendered(later)) + SplitLines(rest)
    ensures AllOk(Rendered(first + later))
    ensures SplitLines(RenderAll(first).value + later_text + rest) == Lines(Rendered(first + later)) + SplitLines(rest)
  {
    var here, there := Rendered(first), Rendered(later);
    CollectSucceedsOnRows(here);
    RenderedConcat(first, later);
    RenderedRowsReadBack(first, later_text + rest);
    LinesConcat(here, there);
    calc {
      SplitLines(RenderAll(first).value + later_text + rest);
      { Associative(RenderAll(first).value, later_text, rest); }
      SplitLines(RenderAll(first).value + (later_text + rest));
      Lines(here) + (Lines(there) + SplitLines(rest));
      { Associative(Lines(here), Lines(there), SplitLines(rest)); }
      Lines(here + there) + SplitLines(rest);
    }
  }

  /** Pairs that are plain together are plain apart. */
  lemma PlainPairsSplit(a: seq<(ListingRow, ListingRow)>, b: seq<(ListingRow, ListingRow)>)
    requires PlainPairs(a + b)
    ensures PlainPairs(a) && PlainPairs(b)
  {
    assert forall j :: 0 <= j < |a| ==> (a + b)[j] == a[j];
    assert forall j :: 0 <= j < |b| ==> (a + b)[|a| + j] == b[j];
  }

  /** Lines of two runs of rows that all render are the lines of each, in order. */
  lemma LinesConcat(a: seq<Result<string, RenderError>>, b: seq<Result<string, RenderError>>)
    requires AllOk(a) && AllOk(b)
    ensures AllOk(a + b) && Lines(a + b) == Lines(a) + Lines(b)
  {
    assert forall j :: 0 <= j < |b| ==> (a + b)[|a| + j] == b[j];
  }

  /** Rendering two runs of pairs renders each. */
  lemma {:induction false} RenderedConcat(a: seq<(ListingRow, ListingRow)>, b: seq<(ListingRow, ListingRow)>)
    ensures Rendered(a + b) == Rendered(a) + Rendered(b)
  {
    assert forall j :: 0 <= j < |b| ==> (a + b)[|a| + j] == b[j];
  }

  /**
   * The page loop as the script runs it, one response at a time: `next`
   * responses consumed, the page at `index` due, `acc` gathered and `done`
   * the offsets already requested. It carries the state of the `while`
   * loop in `Get8Ks`, so that loop's invariant is one step of this
   * function; `CrawlFrom`, which the crawl lemmas are proved about, recurses
   * on the remaining responses instead, and `LoopIsCrawl` joins the two.
   */
  function Loop(process: PageProcessor, responses: seq<Response>, next: nat, index: nat, acc: string,
                done: seq<nat>): Crawl
    requires next <= |responses|
    decreases |responses| - next
  {
    if next == |responses| then Crawl(OutOfResponses, done)
    else
      var requested := done + [index];
      match responses[next]
      case Timeout => Loop(process, responses, next + 1, index, acc, requested)
      case RequestFailure => Loop(process, responses, next + 1, index, acc, requested)
      case Reply(status, page) =>
        if status != 200 then Crawl(NotLoaded(status), requested)
        else match process(page)
          case Err(e) => Crawl(RowFailure(e), requested)
          case Ok(text) =>
            if !HasNextPage(page) then Crawl(Filings(acc + text), requested)
            else Loop(process, responses, next + 1, index + FilingsPerPage, acc + text, requested)
  }

  /** Run step by step, the loop does what the crawl describes. */
  lemma {:induction false} LoopIsCrawl(process: PageProcessor, responses: seq<Response>, next: nat, index: nat,
                                       acc: string, done: seq<nat>)
    requires next <= |responses|
    ensures Loop(process, responses, next, index, acc, done)
            == Crawl(CrawlFrom(process, responses[next..], index, acc).outcome,
                     done + CrawlFrom(process, responses[next..], index, acc).offsets)
    decreases |responses| - next
  {
    if next < |responses| {
      var rs := responses[next..];
      assert rs[0] == responses[next] && rs[1..] == responses[next + 1..];
      var r := responses[next];
      if IsTransportFailure(r) {
        LoopIsCrawl(process, responses, next + 1, index, acc, done + [index]);
        var c := CrawlFrom(process, rs[1..], index, acc);
        assert done + [index] + c.offsets == done + ([index] + c.offsets);
      } else if r.status == 200 && process(r.page).Ok? && HasNextPage(r.page) {
        var acc' := acc + process(r.page).value;
        LoopIsCrawl(process, responses, next + 1, index + FilingsPerPage, acc', done + [index]);
        var c := CrawlFrom(process, rs[1..], index + FilingsPerPage, acc');
        assert done + [index] + c.offsets == done + ([index] + c.offsets);
      }
    }
  }

  /**
   * `get_8ks()`, with the session answering from `responses`: the outcome,
   * and the URL of every request made, in order.
   */
  method Get8Ks(responses: seq<Response>) returns (outcome: FetchOutcome, requested: seq<string>)
    ensures outcome == Get8KsSpec(responses).outcome
    ensures |requested| == |Get8KsSpec(responses).offsets|
    ensures forall k :: 0 <= k < |requested| ==> requested[k] == SecUrl(Get8KsSpec(responses).offsets[k])
  {
    LoopIsCrawl(ProcessPage, responses, 0, 0, "", []);
    assert responses[0..] == responses;
    var index: nat := 0;
    var relevantFilings := "";
    requested := [];
    ghost var offsets: seq<nat> := [];
    var next := 0;
    while next < |responses|
      invariant next <= |responses|
      invariant |requested| == |offsets|
      invariant forall k :: 0 <= k < |requested| ==> requested[k] == SecUrl(offsets[k])
      invariant Loop(ProcessPage, responses, next, index, relevantFilings, offsets) == Get8KsSpec(responses)
      decreases |responses| - next
    {
      var pageUrl := SecUrl(index);
      var response := responses[next];
      ghost var step := Loop(ProcessPage, responses, next, index, relevantFilings, offsets);
      requested := requested + [pageUrl];
      offsets := offsets + [index];
      next := next + 1;
      if response.Reply? {
        if response.status != 200 {
          return NotLoaded(response.status), requested;
        }
        var pairs := SelectPairs(response.page.rows);
        var rendered := RenderPairs(pairs);
        assert rendered == ProcessPage(response.page);
        if rendered.Err? {
          return RowFailure(rendered.error), requested;
        }
        relevantFilings := relevantFilings + rendered.value;
        if !HasNextPage(response.page) {
          assert step == Crawl(Filings(relevantFilings), offsets);
          return Filings(relevantFilings), requested;
        }
        index := index + FilingsPerPage;
        assert step == Loop(ProcessPage, responses, next, index, relevantFilings, offsets);
      }
      // A timeout or another request exception is logged and the same page requested again.
    }
    outcome := OutOfResponses;
  }
}
