/**
  The e-mail verification pages of pages.py: a table of four responses, each
  a title and a message, and the HTML page built from the response a status
  code selects. Python's list indexing is modelled exactly: a negative code
  counts from the end of the table, and a code outside the table selects the
  final "Verification Failed" response.
*/
module Pages {
  import opened Wrappers
  import opened PyStr

  /** One entry of the table: the page heading and the paragraph under it. */
  datatype VerificationResponse = VerificationResponse(title: string, message: string)

  /** The table, in order: 0 verified, 1 expired, 2 invalid, 3 failed. */
  const Responses: seq<VerificationResponse> := [
    VerificationResponse(
      "\U{2705} Email Verified",
      "Your email has been successfully verified! You can now log in."),
    VerificationResponse(
      "\U{23F0} Token Expired",
      "The verification link has expired. Please sign up again to receive a new link."),
    VerificationResponse(
      "\U{274C} Invalid Token",
      "The verification link is invalid or malformed. Please check your email or request a new link."),
    VerificationResponse(
      "\U{26A0}\U{FE0F} Verification Failed",
      "An unexpected error occurred while verifying your email. Please try again later.")
  ]

  /** `xs[i]` in Python: `None` where it raises `IndexError`. */
  function PyIndex<T>(xs: seq<T>, i: int): (r: Option<T>)
    ensures 0 <= i < |xs| ==> r == Some(xs[i])
    ensures -|xs| <= i < 0 ==> r == Some(xs[|xs| + i])
    ensures r.None? <==> i < -|xs| || i >= |xs|
  {
    if 0 <= i < |xs| then Some(xs[i])
    else if -|xs| <= i < 0 then Some(xs[|xs| + i])
    else None
  }

  /** The response `verification_html` shows for `code`. */
  function SelectResponse(code: int): (resp: VerificationResponse)
    ensures resp in Responses
  {
    match PyIndex(Responses, code)
    case Some(resp) => resp
    case None => Responses[3]
  }

  /** The fixed text of the page before the heading, between the heading and
      the paragraph, and after the paragraph. */
  const HtmlOpen: string := "\n    <html>\n        <head><title>Email Verification</title></head>\n"
    + "        <body style=\"font-family: Arial, sans-serif; text-align: center; padding-top: 50px;\">\n"
    + "            "
  const HtmlBetween: string := "\n            "
  const HtmlClose: string := "\n        </body>\n    </html>\n    "

  /** A page of this shape: fixed text, the heading, fixed text, the
      paragraph, fixed text. */
  function Layout(open: string, between: string, close: string, title: string, message: string): string
  {
    open + ("<h1>" + title + "</h1>") + between + ("<p>" + message + "</p>") + close
  }

  /** The page showing a response: its title as heading, its message below. */
  function Page(resp: VerificationResponse): string
  {
    Layout(HtmlOpen, HtmlBetween, HtmlClose, resp.title, resp.message)
  }

  /** The page `verification_html(code)` returns, character for character. */
  function VerificationHtml(code: int): string
  {
    Page(SelectResponse(code))
  }

  /** Codes 0 to 3 select their own entry; -4 to -1 count from the end; every
      other code selects the failure entry. */
  lemma SelectResponseCases(code: int)
    ensures 0 <= code < 4 ==> SelectResponse(code) == Responses[code]
    ensures -4 <= code < 0 ==> SelectResponse(code) == Responses[4 + code]
    ensures code < -4 || code >= 4 ==> SelectResponse(code) == Responses[3]
  {
  }

  /** The four titles are pairwise different (their first characters differ). */
  lemma TitlesDistinct(i: nat, j: nat)
    requires i < 4 && j < 4
    ensures Responses[i].title == Responses[j].title <==> i == j
  {
    if Responses[i].title == Responses[j].title {
      assert Responses[i].title[0] == Responses[j].title[0];
    }
  }

  /** Every title is non-empty, and its first character already tells which
      entry of the table it heads. */
  lemma TitleHeadIdentifies(r1: VerificationResponse, r2: VerificationResponse)
    requires r1 in Responses && r2 in Responses
    ensures |r1.title| > 0 && |r2.title| > 0
    ensures r1.title[0] == r2.title[0] ==> r1 == r2
  {
    var i :| 0 <= i < 4 && Responses[i] == r1;
    var j :| 0 <= j < 4 && Responses[j] == r2;
    if r1.title[0] == r2.title[0] {
      TitlesDistinct(i, j);
    }
  }

  /** A page of this shape holds the heading and the paragraph. */
  lemma LayoutShows(open: string, between: string, close: string, title: string, message: string)
    ensures Contains(Layout(open, between, close, title, message), "<h1>" + title + "</h1>")
    ensures Contains(Layout(open, between, close, title, message), "<p>" + message + "</p>")
  {
    var h1, p := "<h1>" + title + "</h1>", "<p>" + message + "</p>";
    var page := Layout(open, between, close, title, message);
    assert page == open + h1 + (between + p + close);
    ContainsMiddle(open, h1, between + p + close);
    assert page == (open + h1 + between) + p + close;
    ContainsMiddle(open + h1 + between, p, close);
  }

  /** The heading of a page is the response's title and its paragraph the message. */
  lemma PageShowsResponse(resp: VerificationResponse)
    ensures Contains(Page(resp), "<h1>" + resp.title + "</h1>")
    ensures Contains(Page(resp), "<p>" + resp.message + "</p>")
  {
    LayoutShows(HtmlOpen, HtmlBetween, HtmlClose, resp.title, resp.message);
  }

  /** In a page of this shape the title starts right after the opening text
      and "<h1>". */
  lemma LayoutTitleStart(open: string, between: string, close: string, title: string, message: string)
    requires |title| > 0
    ensures |Layout(open, between, close, title, message)| > |open| + 4
    ensures Layout(open, between, close, title, message)[|open| + 4] == title[0]
  {
    var rest := title + "</h1>" + between + ("<p>" + message + "</p>") + close;
    assert Layout(open, between, close, title, message) == open + ("<h1>" + rest);
  }

  /** The first character of the title sits at a fixed place in the page. */
  lemma PageTitleStart(resp: VerificationResponse)
    requires |resp.title| > 0
    ensures |Page(resp)| > |HtmlOpen| + 4 && Page(resp)[|HtmlOpen| + 4] == resp.title[0]
  {
    LayoutTitleStart(HtmlOpen, HtmlBetween, HtmlClose, resp.title, resp.message);
  }

  /** The page of a code shows the response the code selects. */
  lemma HtmlShowsResponse(code: int)
    ensures Contains(VerificationHtml(code), "<h1>" + SelectResponse(code).title + "</h1>")
    ensures Contains(VerificationHtml(code), "<p>" + SelectResponse(code).message + "</p>")
  {
    PageShowsResponse(SelectResponse(code));
  }

  /** Two codes give the same page exactly when they select the same response. */
  lemma HtmlDeterminedBySelection(a: int, b: int)
    ensures VerificationHtml(a) == VerificationHtml(b) <==> SelectResponse(a) == SelectResponse(b)
  {
    var ra, rb := SelectResponse(a), SelectResponse(b);
    TitleHeadIdentifies(ra, rb);
    if Page(ra) == Page(rb) {
      PageTitleStart(ra);
      PageTitleStart(rb);
    }
  }
}
