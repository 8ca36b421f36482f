/** What the network and the HTML parser hand to the pipeline. Neither is
    modelled: a fetch is an oracle from URL to outcome, and a parsed page is
    reduced to the one table the pipeline looks for. */
module Fetching {
  import opened Common
  import opened Text

  /** The holidays table as the parser sees it: the raw text of every `th`
      in the table, in document order, and the table's first `tbody`, if it
      has one, as the raw texts of the `td` cells of each of its `tr` rows. */
  datatype Table = Table(headerCells: seq<string>, body: Option<seq<seq<string>>>)

  /** A parsed page: the table with the holidays classes, if there is one. */
  datatype Document = Document(table: Option<Table>)

  /** What the parser makes of the exception object that a failed fetch
      returns in place of a body. */
  datatype ErrorContent = ParsesAs(doc: Document) | Unparseable

  const FAILURE_STATUS := -1

  /** A response status other than 200 that `urlopen` returns without
      raising: a 200 always comes with its body, and -1 is reserved for a
      failed request. */
  type OtherStatus = s: int | s != 200 && s != FAILURE_STATUS witness 0

  /** The outcomes of one GET. `Page`: status 200 and the body. `NoContent`: a
      response with another status and no body (content `None`). `Failed`:
      a `URLError`, reported as status -1 with the exception object as
      content, which is NOT `None`. */
  datatype Fetch =
    | Page(page: Document)
    | NoContent(status: OtherStatus)
    | Failed(error: ErrorContent)

  /** The status half of the pair the fetcher returns. */
  function Status(f: Fetch): (s: int)
    ensures s == 200 <==> f.Page?
    ensures s == FAILURE_STATUS <==> f.Failed?
  {
    match f
    case Page(_) => 200
    case NoContent(status) => status
    case Failed(_) => FAILURE_STATUS
  }

  /** The content half: the body of a 200, the exception of a failed
      request, and `None` for any other status. */
  function Content(f: Fetch): (c: Option<ErrorContent>)
    ensures c.None? <==> Status(f) != 200 && Status(f) != FAILURE_STATUS
    ensures f.Page? ==> c == Some(ParsesAs(f.page))
    ensures f.Failed? ==> c == Some(f.error)
  {
    match f
    case Page(page) => Some(ParsesAs(page))
    case NoContent(_) => None
    case Failed(e) => Some(e)
  }

  const URL_PREFIX := "https://publicholidays.de/berlin/"
  const URL_SUFFIX := "-dates/"

  /** The page that lists one year's Berlin holidays. */
  function LinkYear(year: int): (url: string)
    ensures |url| > |URL_PREFIX| + |URL_SUFFIX|
    ensures url[..|URL_PREFIX|] == URL_PREFIX
    ensures url[|url| - |URL_SUFFIX|..] == URL_SUFFIX
    ensures url[|URL_PREFIX|..|url| - |URL_SUFFIX|] == DecimalString(year)
  {
    URL_PREFIX + DecimalString(year) + URL_SUFFIX
  }

  /** Different years are different pages, so an oracle over URLs answers
      every year independently. */
  lemma LinkYearInjective(y1: int, y2: int)
    requires LinkYear(y1) == LinkYear(y2)
    ensures y1 == y2
  {
    var u := LinkYear(y1);
    assert DecimalString(y1) == u[|URL_PREFIX|..|u| - |URL_SUFFIX|] == DecimalString(y2);
    DecimalStringInjective(y1, y2);
  }
}
