/**
 * One Form 8-K filing as a Markdown table row: how `get_filing_info` builds it
 * from a pair of listing rows, and how the merge reads its timestamp back.
 *
 * The HTML lookups are given: for each listing row, the text of its first
 * `<a>`, the text of its `nowrap` cell holding a `<br>`, and the href of its
 * `<a>` labelled `[html]`, each None where BeautifulSoup finds nothing.
 */
module FilingRow {
  import opened Wrappers
  import opened Text
  import Timestamp

  /** A `<tr>` of the listing, reduced to what the script reads from it. */
  datatype ListingRow = ListingRow(
    text: string,
    firstLinkText: Option<string>,
    timeCellText: Option<string>,
    htmlLinkHref: Option<string>)

  /** Why `get_filing_info` raises instead of returning a row. */
  datatype RenderError =
    | MissingCompanyLink          // `soup.find('a')` is None: AttributeError
    | MissingTimeCell             // no `nowrap` cell with a `<br>`: AttributeError
    | BadTimestamp(text: string)  // `strptime` raises ValueError
    | MissingHtmlLink             // no `[html]` link: AttributeError

  const SecOrigin: string := "https://www.sec.gov"
  const FilerMarker: string := " (Filer)"

  /** Index of the first `c` in `s`, or `|s|`. */
  function IndexOf(s: string, c: char): (k: nat)
    ensures k <= |s| && c !in s[..k]
    ensures k < |s| ==> s[k] == c
  {
    if s == [] || s[0] == c then 0
    else
      var k := 1 + IndexOf(s[1..], c);
      assert s[..k] == [s[0]] + s[1..][..k - 1];
      k
  }

  /**
   * Length of the match of `\([^)]*\) \(Filer\)\s*` at the start of `s`, if
   * any: an opening parenthesis, everything up to the first closing one, the
   * marker " (Filer)", then all the whitespace that follows.
   */
  function FilerTagAt(s: string): (n: Option<nat>)
    ensures n.Some? ==> 2 + |FilerMarker| <= n.value <= |s|
  {
    if s == [] || s[0] != '(' then None
    else
      var close := 1 + IndexOf(s[1..], ')');
      if close == |s| || !(FilerMarker <= s[close + 1..]) then None
      else
        var rest := s[close + 1 + |FilerMarker|..];
        Some(close + 1 + |FilerMarker| + (|rest| - |TrimStart(rest)|))
  }

  /** `re.sub(r'\([^)]*\) \(Filer\)\s*', '', s)`: leftmost matches, scanning on after each. */
  function RemoveFilerTags(s: string): (r: string)
    ensures |r| <= |s|
    decreases |s|
  {
    if s == [] then []
    else match FilerTagAt(s)
      case Some(n) => RemoveFilerTags(s[n..])
      case None => [s[0]] + RemoveFilerTags(s[1..])
  }

  /** The company column: the link text without its filer annotations, stripped. */
  function CompanyName(linkText: string): string {
    Strip(RemoveFilerTags(linkText))
  }

  /** The link column: `[link](https://www.sec.gov<href>)`. */
  function LinkCell(href: string): string {
    "[link](" + SecOrigin + href + ")"
  }

  /** `f"|{company}|{date_time}|{full_url}|\n"`. */
  function TableRow(company: string, stamp: string, link: string): string {
    "|" + company + "|" + stamp + "|" + link + "|\n"
  }

  /**
   * `get_filing_info((context, detail))`: the company comes from the row
   * before the one that names the filing, the time and the link from that row.
   * The lookups fail in the order the script makes them.
   */
  function GetFilingInfo(context: ListingRow, detail: ListingRow): Result<string, RenderError> {
    match context.firstLinkText
    case None => Err(MissingCompanyLink)
    case Some(linkText) =>
      match detail.timeCellText
      case None => Err(MissingTimeCell)
      case Some(cell) =>
        match Timestamp.Reformat(cell)
        case None => Err(BadTimestamp(cell))
        case Some(stamp) =>
          match detail.htmlLinkHref
          case None => Err(MissingHtmlLink)
          case Some(href) => Ok(TableRow(CompanyName(linkText), stamp, LinkCell(href)))
  }

  /**
   * A row is produced exactly when all three lookups find something and the
   * time cell is a valid timestamp; a bad timestamp is reported with its text.
   */
  lemma GetFilingInfoSucceeds(context: ListingRow, detail: ListingRow)
    ensures GetFilingInfo(context, detail).Ok? <==>
      && context.firstLinkText.Some?
      && detail.timeCellText.Some? && Timestamp.ValidCompact(detail.timeCellText.value)
      && detail.htmlLinkHref.Some?
    ensures GetFilingInfo(context, detail).Err? && GetFilingInfo(context, detail).error.BadTimestamp? ==>
      && context.firstLinkText.Some? && detail.timeCellText == Some(GetFilingInfo(context, detail).error.text)
      && !Timestamp.ValidCompact(GetFilingInfo(context, detail).error.text)
  {
    if detail.timeCellText.Some? {
      Timestamp.ReformatCanonical(detail.timeCellText.value);
    }
  }

  /** `row.split('|')[2]`, None where the row has fewer than two `|` (IndexError). */
  function TimestampField(row: string): (t: Option<string>)
    ensures t.Some? <==> Count(row, '|') >= 2
    ensures t.Some? ==> '|' !in t.value
  {
    var parts := Split(row, '|');
    if |parts| > 2 then Some(parts[2]) else None
  }

  /** Reading a rendered row back by `|` gives each column again. */
  lemma {:induction false} TableRowFields(company: string, stamp: string, link: string)
    requires '|' !in company && '|' !in stamp && '|' !in link
    ensures Split(TableRow(company, stamp, link), '|') == ["", company, stamp, link, "\n"]
  {
    var t3 := link + ['|'] + "\n";
    var t2 := stamp + ['|'] + t3;
    var t1 := company + ['|'] + t2;
    assert TableRow(company, stamp, link) == [] + ['|'] + t1;
    SplitWithoutSeparator("\n", '|');
    SplitFirstSegment(link, '|', "\n");
    var p3 := Split(t3, '|');
    assert p3 == [link, "\n"];
    SplitFirstSegment(stamp, '|', t3);
    var p2 := Split(t2, '|');
    assert p2 == [stamp] + p3;
    SplitFirstSegment(company, '|', t2);
    var p1 := Split(t1, '|');
    assert p1 == [company] + p2;
    SplitFirstSegment([], '|', t1);
    assert Split(TableRow(company, stamp, link), '|') == [""] + p1;
    ColumnsDisplay(company, stamp, link);
  }

  /** The five columns as one display; kept apart so the solver sees this identity on its own. */
  lemma ColumnsDisplay(company: string, stamp: string, link: string)
    ensures [""] + ([company] + ([stamp] + [link, "\n"])) == ["", company, stamp, link, "\n"]
  {
  }

  /** A rendered row's timestamp column is the timestamp it was rendered with. */
  lemma TableRowTimestamp(company: string, stamp: string, link: string)
    requires '|' !in company && '|' !in stamp && '|' !in link
    ensures TimestampField(TableRow(company, stamp, link)) == Some(stamp)
  {
    TableRowFields(company, stamp, link);
  }

  /**
   * A row `get_filing_info` produces carries, as its `split('|')[2]`, the
   * reformatted timestamp, provided the link text and the href hold no `|`.
   */
  lemma FilingTimestampField(context: ListingRow, detail: ListingRow, linkText: string, cell: string, href: string)
    requires context.firstLinkText == Some(linkText)
    requires detail.timeCellText == Some(cell) && Timestamp.ValidCompact(cell)
    requires detail.htmlLinkHref == Some(href)
    requires '|' !in linkText && '|' !in href
    ensures GetFilingInfo(context, detail).Ok?
    ensures TimestampField(GetFilingInfo(context, detail).value) == Timestamp.Reformat(cell)
  {
    Timestamp.ReformatCanonical(cell);
    var stamp := Timestamp.Reformat(cell).value;
    var company := CompanyName(linkText);
    CompanyNameAvoids(linkText, '|');
    var row := TableRow(company, stamp, LinkCell(href));
    assert GetFilingInfo(context, detail) == Ok(row);
    Timestamp.CanonicalIsPlain(stamp);
    LinkCellPlain(href);
    TableRowTimestamp(company, stamp, LinkCell(href));
  }

  /** A looked-up text a row can carry whole: no `|` and no line break. */
  predicate PlainCell(s: string) {
    '|' !in s && NoLineBreak(s)
  }

  /** The link text and the href, where the lookups find them, are plain. */
  predicate PlainLookups(context: ListingRow, detail: ListingRow) {
    && (context.firstLinkText.Some? ==> PlainCell(context.firstLinkText.value))
    && (detail.htmlLinkHref.Some? ==> PlainCell(detail.htmlLinkHref.value))
  }

  /**
   * A row `get_filing_info` builds from plain lookups is one line ended by
   * "\n": `splitlines()` gives that line back whole, and its `split('|')[2]`
   * is the reformatted timestamp.
   */
  lemma FilingRowIsOneLine(context: ListingRow, detail: ListingRow)
    requires GetFilingInfo(context, detail).Ok? && PlainLookups(context, detail)
    ensures detail.timeCellText.Some? && Timestamp.Reformat(detail.timeCellText.value).Some?
    ensures var row := GetFilingInfo(context, detail).value;
            && row != [] && row == row[..|row| - 1] + "\n"
            && NoLineBreak(row[..|row| - 1])
            && TimestampField(row[..|row| - 1]) == Timestamp.Reformat(detail.timeCellText.value)
  {
    var linkText, cell, href := context.firstLinkText.value, detail.timeCellText.value, detail.htmlLinkHref.value;
    Timestamp.ReformatCanonical(cell);
    var stamp := Timestamp.Reformat(cell).value;
    Timestamp.CanonicalIsPlain(stamp);
    var company, link := CompanyName(linkText), LinkCell(href);
    CompanyNameAvoids(linkText, '|');
    CompanyNamePlain(linkText);
    LinkCellPlain(href);
    LinkCellNoBreak(href);
    var line := "|" + company + "|" + stamp + "|" + link + "|";
    assert GetFilingInfo(context, detail).value == line + "\n";
    assert (line + "\n")[..|line|] == line;
    LeadingColumns(company, stamp, link + "|");
    assert line == "|" + company + "|" + stamp + "|" + (link + "|");
    assert NoLineBreak("|");
    NoLineBreakAppend("|", company);
    NoLineBreakAppend("|" + company, "|");
    NoLineBreakAppend("|" + company + "|", stamp);
    NoLineBreakAppend("|" + company + "|" + stamp, "|");
    NoLineBreakAppend("|" + company + "|" + stamp + "|", link);
    NoLineBreakAppend("|" + company + "|" + stamp + "|" + link, "|");
  }

  /** Behind a leading `|`, two pipe-free columns: the second is `split('|')[2]`, whatever follows. */
  lemma LeadingColumns(company: string, stamp: string, rest: string)
    requires '|' !in company && '|' !in stamp
    ensures TimestampField("|" + company + "|" + stamp + "|" + rest) == Some(stamp)
  {
    var t2 := stamp + ['|'] + rest;
    var t1 := company + ['|'] + t2;
    assert "|" + company + "|" + stamp + "|" + rest == [] + ['|'] + t1;
    SplitFirstSegment(stamp, '|', rest);
    SplitFirstSegment(company, '|', t2);
    SplitFirstSegment([], '|', t1);
  }

  /** The company column breaks no line the link text does not. */
  lemma CompanyNamePlain(linkText: string)
    requires NoLineBreak(linkText)
    ensures NoLineBreak(CompanyName(linkText))
  {
    var r := CompanyName(linkText);
    forall i | 0 <= i < |r|
      ensures !IsLineBreak(r[i])
    {
      if IsLineBreak(r[i]) {
        assert r[i] !in linkText;
        CompanyNameAvoids(linkText, r[i]);
      }
    }
  }

  lemma LinkCellNoBreak(href: string)
    requires NoLineBreak(href)
    ensures NoLineBreak(LinkCell(href))
  {
    var head := "[link](" + SecOrigin;
    assert NoLineBreak(head);
    assert NoLineBreak(")");
    NoLineBreakAppend(head, href);
    NoLineBreakAppend(head + href, ")");
  }

  /** The company column holds no character the link text does not. */
  lemma CompanyNameAvoids(linkText: string, c: char)
    requires c !in linkText
    ensures c !in CompanyName(linkText)
  {
    var s := RemoveFilerTags(linkText);
    RemoveFilerTagsAvoids(linkText, c);
    var i := |s| - |TrimStart(s)|;
    assert CompanyName(linkText) == s[i..i + |CompanyName(linkText)|];
  }

  lemma {:induction false} RemoveFilerTagsAvoids(s: string, c: char)
    requires c !in s
    ensures c !in RemoveFilerTags(s)
    decreases |s|
  {
    if s != [] {
      match FilerTagAt(s)
      case Some(n) =>
        assert forall i :: 0 <= i < |s[n..]| ==> s[n..][i] == s[n + i];
        RemoveFilerTagsAvoids(s[n..], c);
      case None =>
        assert forall i :: 0 <= i < |s[1..]| ==> s[1..][i] == s[i + 1];
        RemoveFilerTagsAvoids(s[1..], c);
    }
  }

  lemma LinkCellPlain(href: string)
    requires '|' !in href
    ensures '|' !in LinkCell(href)
  {
    var head := "[link](" + SecOrigin;
    assert forall i :: 0 <= i < |head| ==> head[i] != '|';
    assert LinkCell(href) == head + href + ")";
  }

  /** Scanning `a` followed by `b`, the pattern matches at no position inside `a`. */
  predicate NoTagIn(a: string, b: string) {
    forall i :: 0 <= i < |a| ==> FilerTagAt(a[i..] + b).None?
  }

  /** Without an opening parenthesis no match can start. */
  lemma NoOpenNoTag(a: string, b: string)
    requires '(' !in a
    ensures NoTagIn(a, b)
  {
    forall i | 0 <= i < |a|
      ensures FilerTagAt(a[i..] + b).None?
    {
      assert (a[i..] + b)[0] == a[i];
    }
  }

  /** Text in which the scan finds no match passes through the substitution untouched. */
  lemma {:induction false} RemoveFilerTagsKeepsPlainPrefix(a: string, b: string)
    requires NoTagIn(a, b)
    ensures RemoveFilerTags(a + b) == a + RemoveFilerTags(b)
  {
    if a != [] {
      var s := a + b;
      assert a[0..] + b == s;
      assert FilerTagAt(s) == None;
      assert s[1..] == a[1..] + b;
      assert RemoveFilerTags(s) == [a[0]] + RemoveFilerTags(a[1..] + b);
      forall i | 0 <= i < |a[1..]|
        ensures FilerTagAt(a[1..][i..] + b).None?
      {
        assert a[1..][i..] == a[i + 1..];
      }
      RemoveFilerTagsKeepsPlainPrefix(a[1..], b);
      calc {
        RemoveFilerTags(s);
        [a[0]] + (a[1..] + RemoveFilerTags(b));
        ([a[0]] + a[1..]) + RemoveFilerTags(b);
        { assert [a[0]] + a[1..] == a; }
        a + RemoveFilerTags(b);
      }
    } else {
      assert a + b == b;
    }
  }

  /**
   * The pattern matches only at an annotation: an opening parenthesis, text
   * without a closing one, the closing one and " (Filer)", and the match
   * then runs over the whitespace that follows.
   */
  lemma FilerTagOnlyAtAnnotation(s: string)
    requires FilerTagAt(s).Some?
    ensures exists id, b :: ')' !in id && s == "(" + id + ")" + FilerMarker + b
  {
    var close := 1 + IndexOf(s[1..], ')');
    assert close < |s| && FilerMarker <= s[close + 1..];
    NoCloseBefore(s);
    AnnotationShape(s, close);
  }

  /** Text that opens a parenthesis, closes it, and has " (Filer)" next is an annotation. */
  lemma AnnotationShape(s: string, close: nat)
    requires 0 < close < |s| && s[0] == '(' && s[close] == ')'
    requires ')' !in s[1..close] && FilerMarker <= s[close + 1..]
    ensures exists id, b :: ')' !in id && s == "(" + id + ")" + FilerMarker + b
  {
    AroundClose(s, close, FilerMarker);
    var id, b := s[1..close], s[close + 1 + |FilerMarker|..];
    assert ')' !in id && s == "(" + id + ")" + FilerMarker + b;
  }

  /** Between the first element and the first closing parenthesis after it there is none. */
  lemma NoCloseBefore(s: string)
    requires s != []
    ensures ')' !in s[1..1 + IndexOf(s[1..], ')')]
  {
    assert s[1..1 + IndexOf(s[1..], ')')] == s[1..][..IndexOf(s[1..], ')')];
  }

  /** Text cut around an inner position that `marker` follows. */
  lemma AroundClose(s: string, close: nat, marker: string)
    requires 0 < close < |s| && marker <= s[close + 1..]
    ensures s == [s[0]] + s[1..close] + [s[close]] + marker + s[close + 1 + |marker|..]
  {
    assert s == s[..close] + s[close..];
    assert s[..close] == [s[0]] + s[1..close];
    assert s[close..] == [s[close]] + s[close + 1..];
    assert s[close + 1..] == marker + s[close + 1 + |marker|..];
  }

  /**
   * An annotation `(<id>) (Filer)` at the start is removed together with the
   * whitespace after it, and the substitution goes on with what follows.
   */
  lemma FilerTagThenRest(id: string, b: string)
    requires ')' !in id
    ensures RemoveFilerTags("(" + id + ")" + FilerMarker + b) == RemoveFilerTags(TrimStart(b))
  {
    var pre := "(" + id + ")" + FilerMarker;
    var s := pre + b;
    var k := |b| - |TrimStart(b)|;
    FilerTagMatch(id, b);
    var n := FilerTagAt(s).value;
    assert n == |pre| + k;
    SkipPrefix(pre, b, k);
    assert s[n..] == TrimStart(b);
    assert RemoveFilerTags(s) == RemoveFilerTags(s[n..]);
  }

  lemma SkipPrefix(pre: string, b: string, k: nat)
    requires k <= |b|
    ensures (pre + b)[|pre| + k..] == b[k..]
  {
  }

  /** One annotation `(<id>) (Filer)` with trailing whitespace is removed entirely. */
  lemma FilerTagRemoved(id: string, ws: string)
    requires ')' !in id
    requires AllSpace(ws)
    ensures RemoveFilerTags("(" + id + ")" + FilerMarker + ws) == ""
  {
    FilerTagThenRest(id, ws);
    TrimStartAllSpace(ws);
  }

  /** The pattern matches at the start of an annotation and swallows the whitespace after it. */
  lemma FilerTagMatch(id: string, b: string)
    requires ')' !in id
    ensures var s := "(" + id + ")" + FilerMarker + b;
            FilerTagAt(s).Some? && FilerTagAt(s).value == |s| - |TrimStart(b)|
  {
    var s := "(" + id + ")" + FilerMarker + b;
    var t := s[1..];
    var close := 1 + |id|;
    assert t == id + ")" + FilerMarker + b;
    assert t[|id|] == ')' && t[..|id|] == id;
    IndexOfFirst(t, ')', |id|);
    var tail := s[close + 1..];
    assert tail == FilerMarker + b;
    assert FilerMarker <= tail && tail[|FilerMarker|..] == b;
    var rest := s[close + 1 + |FilerMarker|..];
    assert rest == b && |s| == close + 1 + |FilerMarker| + |b|;
    assert 1 + IndexOf(s[1..], ')') == close && close != |s|;
    assert s != [] && s[0] == '(';
    assert !(close == |s| || !(FilerMarker <= s[close + 1..]));
    assert FilerTagAt(s).Some?;
    assert FilerTagAt(s).value == close + 1 + |FilerMarker| + (|rest| - |TrimStart(rest)|);
  }

  /** `IndexOf` finds the first occurrence. */
  lemma {:induction false} IndexOfFirst(s: string, c: char, k: nat)
    requires k < |s| && s[k] == c && c !in s[..k]
    ensures IndexOf(s, c) == k
  {
    if k > 0 {
      assert s[0] == s[..k][0];
      assert s[1..][..k - 1] == s[1..k];
      assert s[..k] == [s[0]] + s[1..k];
      IndexOfFirst(s[1..], c, k - 1);
    }
  }

  /**
   * The company column for the listing's usual link text
   * `<name> (<id>) (Filer)`: the stripped name, whatever parentheses the
   * name holds, as long as none of them opens an annotation of its own.
   */
  lemma CompanyNameOfFilerLink(name: string, id: string, ws: string)
    requires ')' !in id && AllSpace(ws)
    requires NoTagIn(name, "(" + id + ")" + FilerMarker + ws)
    ensures CompanyName(name + "(" + id + ")" + FilerMarker + ws) == Strip(name)
  {
    var tag := "(" + id + ")" + FilerMarker + ws;
    assert name + "(" + id + ")" + FilerMarker + ws == name + tag;
    RemoveFilerTagsKeepsPlainPrefix(name, tag);
    FilerTagRemoved(id, ws);
    assert name + "" == name;
  }

  /** A parenthesised part starts a match exactly when " (Filer)" follows its closing parenthesis. */
  lemma TagAfterParen(x: string, rest: string)
    requires ')' !in x
    ensures FilerTagAt("(" + x + ")" + rest).None? <==> !(FilerMarker <= rest)
  {
    var s := "(" + x + ")" + rest;
    assert s[1..] == x + ")" + rest && s[1..][|x|] == ')' && s[1..][..|x|] == x;
    IndexOfFirst(s[1..], ')', |x|);
    assert s[|x| + 2..] == rest;
  }

  /** No match inside `a1` and none inside `a2` is none inside `a1 + a2`. */
  lemma NoTagInAppend(a1: string, a2: string, b: string)
    requires NoTagIn(a1, a2 + b) && NoTagIn(a2, b)
    ensures NoTagIn(a1 + a2, b)
  {
    forall i | 0 <= i < |a1 + a2|
      ensures FilerTagAt((a1 + a2)[i..] + b).None?
    {
      if i < |a1| {
        assert (a1 + a2)[i..] + b == a1[i..] + (a2 + b);
      } else {
        assert (a1 + a2)[i..] == a2[i - |a1|..];
      }
    }
  }

  /**
   * A parenthesised part of the name that " (Filer)" does not follow is
   * kept: for link text `<head>(<inner>)<after>(<id>) (Filer)`, such as
   * "Foo (DE) Inc (0001234567) (Filer)", the company column is
   * `<head>(<inner>)<after>` stripped ("Foo (DE) Inc").
   */
  lemma CompanyNameKeepsOwnParentheses(head: string, inner: string, after: string, id: string)
    requires '(' !in head && ')' !in inner && '(' !in after && ')' !in id
    requires !(FilerMarker <= after + "(" + id + ")" + FilerMarker)
    ensures CompanyName(head + "(" + inner + ")" + after + "(" + id + ")" + FilerMarker)
            == Strip(head + "(" + inner + ")" + after)
  {
    var tag := "(" + id + ")" + FilerMarker + "";
    assert after + tag == after + "(" + id + ")" + FilerMarker;
    TagAfterParen(inner, after + tag);
    var paren := "(" + inner + ")";
    NoTagOpening(inner, after + tag);
    NoOpenNoTag(after, tag);
    NoTagInAppend(paren, after, tag);
    NoOpenNoTag(head, paren + after + tag);
    assert head + (paren + after + tag) == head + paren + after + tag;
    NoTagInAppend(head, paren + after, tag);
    var name := head + (paren + after);
    assert name == head + "(" + inner + ")" + after;
    CompanyNameOfFilerLink(name, id, "");
    assert name + "(" + id + ")" + FilerMarker + "" == head + "(" + inner + ")" + after + "(" + id + ")" + FilerMarker;
  }

  /** A parenthesised part without a match at its opening holds no match at all. */
  lemma NoTagOpening(inner: string, rest: string)
    requires ')' !in inner && FilerTagAt("(" + inner + ")" + rest).None?
    ensures NoTagIn("(" + inner + ")", rest)
  {
    var paren := "(" + inner + ")";
    TagAfterParen(inner, rest);
    forall i | 0 <= i < |paren|
      ensures FilerTagAt(paren[i..] + rest).None?
    {
      if i == 0 {
        assert paren[0..] + rest == "(" + inner + ")" + rest;
      } else if i <= |inner| && inner[i - 1] == '(' {
        assert paren[i..] == "(" + inner[i..] + ")";
        TagAfterParen(inner[i..], rest);
      } else {
        assert (paren[i..] + rest)[0] == paren[i] != '(';
      }
    }
  }

  /** " (Filer)" does not follow an opening parenthesis unless "Filer" is what it encloses. */
  lemma MarkerNotAtOpen(y: string, r: string)
    requires ')' !in y && y != "Filer"
    ensures !(FilerMarker <= " " + ("(" + y + ")" + r))
  {
    var w := " " + ("(" + y + ")" + r);
    if |y| > 5 {
      assert w[7] == y[5] != FilerMarker[7];
    } else if |y| == 5 {
      assert w[2..7] == y != FilerMarker[2..7];
    } else {
      assert w[2 + |y|] == ')' != FilerMarker[2 + |y|];
    }
  }

  /**
   * The substitution is one left-to-right pass: removing `(<y>) (Filer)`
   * from `(<x>) (<y>) (Filer)(Filer)` joins `(<x>) ` and `(Filer)` into a
   * new annotation, which is not scanned again.
   */
  lemma RemovalIsSinglePass(x: string, y: string)
    requires '(' !in x && ')' !in x && ')' !in y && y != "Filer"
    ensures var opening, annotation, tail := "(" + x + ")" + " ", "(" + y + ")" + FilerMarker, FilerMarker[1..];
            && RemoveFilerTags(opening + (annotation + tail)) == opening + tail
            && FilerTagAt(opening + tail).Some?
  {
    var px := "(" + x + ")";
    var opening, annotation, tail := px + " ", "(" + y + ")" + FilerMarker, FilerMarker[1..];
    var rest := annotation + tail;
    assert FilerMarker == " " + tail;
    Associative("(" + y + ")", FilerMarker, tail);
    MarkerNotAtOpen(y, FilerMarker + tail);
    TagAfterParen(x, " " + rest);
    NoTagOpening(x, " " + rest);
    NoOpenNoTag(" ", rest);
    NoTagInAppend(px, " ", rest);
    RemoveFilerTagsKeepsPlainPrefix(opening, rest);
    FilerTagThenRest(y, tail);
    MarkerTailKept();
    FilerTagMatch(x, "");
    Associative(px, " ", tail);
    assert px + FilerMarker + "" == opening + tail;
  }

  lemma Associative<T>(a: seq<T>, b: seq<T>, c: seq<T>)
    ensures a + b + c == a + (b + c)
  {
  }

  /** "(Filer)" on its own starts with no whitespace and holds no annotation. */
  lemma MarkerTailKept()
    ensures TrimStart(FilerMarker[1..]) == FilerMarker[1..]
    ensures RemoveFilerTags(FilerMarker[1..]) == FilerMarker[1..]
  {
    var last := FilerMarker[1..];
    assert last[0] == '(' && !IsSpace(last[0]);
    var word := last[1..|last| - 1];
    assert last == "(" + word + ")" + "";
    assert ')' !in word;
    TagAfterParen(word, "");
    NoTagOpening(word, "");
    RemoveFilerTagsKeepsPlainPrefix(last, "");
    assert last + "" == last;
  }
}
