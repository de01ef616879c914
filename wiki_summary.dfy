/**
 * The article-summary tool: it checks the URL, fetches the page, finds the article body,
 * converts it to Markdown, asks a language model for a summary, and maps every failure to
 * the protocol error the client receives. Fetching, parsing, conversion and the model are
 * parameters.
 */
module WikiSummary {
  import opened Wrappers
  import opened Strings

  /** The JSON-RPC 2.0 error codes for invalid parameters and internal errors (section 5.1
      of the JSON-RPC 2.0 specification). */
  const INVALID_PARAMS := -32602
  const INTERNAL_ERROR := -32603

  /** The payload of an `McpError`. */
  datatype ErrorData = ErrorData(code: int, message: string)

  /** An exception raised inside the tool: an `McpError` carrying its data, or any other
      exception, described by whether it is a `ValueError`, whether it is a
      `RequestException` (some of the `requests` errors are both) and its `str()`. */
  datatype PyException =
    | McpErrorRaised(data: ErrorData)
    | OtherRaised(isValueError: bool, isRequestException: bool, text: string)

  /** A call that returns a value or raises. */
  datatype Step<T> = Done(value: T) | Threw(exception: PyException)

  datatype HttpResponse = HttpResponse(status: int, text: string)

  /** What the tool calls: `requests.get`; the search for the `mw-content-text` div in the
      parsed page (absent or the div's HTML); `html2text`; and the model call reduced to the
      content of its reply message. */
  datatype Collaborators = Collaborators(
    get: string -> Step<HttpResponse>,
    findContent: string -> Step<Option<string>>,
    toMarkdown: string -> Step<string>,
    chat: string -> Step<string>)

  /** How the try block ends. */
  datatype TryResult = Returned(summary: string) | Raised(exception: PyException)

  /** How the tool call ends: the summary it returns, or the error data of the `McpError` it raises. */
  datatype Outcome = Summary(text: string) | Failed(error: ErrorData)

  const InvalidUrlMessage := "Invalid URL: Must start with 'http://' or 'https://'"
  const MissingContentMessage := "Failed to find the main content of the article."

  function FetchFailedMessage(status: int): string {
    "Failed to fetch the article. Status code: " + IntToString(status)
  }

  /** `url.startswith(("http", "https"))`. */
  predicate UrlAccepted(url: string) {
    StartsWith(url, "http") || StartsWith(url, "https")
  }

  /** The "https" alternative adds nothing: the test accepts exactly the strings starting
      with "http", so "httpfoo" passes and "ftp://x" does not. */
  lemma UrlAcceptedIffHttpPrefix(url: string)
    ensures UrlAccepted(url) <==> StartsWith(url, "http")
    ensures UrlAccepted("httpfoo") && !UrlAccepted("ftp://x")
  {
    if StartsWith(url, "https") {
      assert url[..4] == url[..5][..4] == "http";
    }
    assert "httpfoo"[..4] == "http";
    assert "ftp://x"[..4] != "http" by { assert "ftp://x"[0] == 'f'; }
  }

  const PromptHead := "Summarize the following text:\n\n"
  const PromptTail := "\n\nSummary:"

  /** The prompt sent to the model: the fixed request, the Markdown text, the fixed tail. */
  function SummaryPrompt(markdown: string): (prompt: string)
    ensures |prompt| == |PromptHead| + |markdown| + |PromptTail|
    ensures prompt[..|PromptHead|] == PromptHead
    ensures prompt[|PromptHead|..|PromptHead| + |markdown|] == markdown
    ensures prompt[|PromptHead| + |markdown|..] == PromptTail
  {
    var prompt := PromptHead + markdown + PromptTail;
    assert prompt[..|PromptHead|] == PromptHead;
    assert prompt[|PromptHead|..|PromptHead| + |markdown|] == markdown;
    assert prompt[|PromptHead| + |markdown|..] == PromptTail;
    prompt
  }

  /** The body of the `try` block. */
  function TryBlock(url: string, c: Collaborators): (r: TryResult)
    ensures !UrlAccepted(url) ==> r == Raised(OtherRaised(true, false, InvalidUrlMessage))
    ensures UrlAccepted(url) && c.get(url).Threw? ==> r == Raised(c.get(url).exception)
    ensures UrlAccepted(url) && c.get(url).Done? && c.get(url).value.status != 200 ==>
              r == Raised(McpErrorRaised(ErrorData(INVALID_PARAMS, FetchFailedMessage(c.get(url).value.status))))
  {
    if !UrlAccepted(url) then Raised(OtherRaised(true, false, InvalidUrlMessage))
    else
      match c.get(url)
      case Threw(e) => Raised(e)
      case Done(response) =>
        if response.status != 200 then
          Raised(McpErrorRaised(ErrorData(INVALID_PARAMS, FetchFailedMessage(response.status))))
        else
          match c.findContent(response.text)
          case Threw(e) => Raised(e)
          case Done(None) => Raised(McpErrorRaised(ErrorData(INVALID_PARAMS, MissingContentMessage)))
          case Done(Some(div)) =>
            match c.toMarkdown(div)
            case Threw(e) => Raised(e)
            case Done(markdown) =>
              match c.chat(SummaryPrompt(markdown))
              case Threw(e) => Raised(e)
              case Done(reply) => Returned(Strip(reply))
  }

  /** `str(e)` of an exception; for an `McpError` that is its message. */
  function ExceptionText(e: PyException): string {
    match e
    case McpErrorRaised(data) => data.message
    case OtherRaised(_, _, text) => text
  }

  /** The three `except` clauses, tried in order: `ValueError`, then `RequestException`, then
      every other exception, `McpError` included. */
  function Handle(e: PyException): (error: ErrorData)
    ensures e.OtherRaised? && e.isValueError ==> error == ErrorData(INVALID_PARAMS, e.text)
    ensures e.OtherRaised? && !e.isValueError && e.isRequestException ==>
              error == ErrorData(INTERNAL_ERROR, "Request Error: " + e.text)
    ensures (e.McpErrorRaised? || (!e.isValueError && !e.isRequestException)) ==>
              error == ErrorData(INTERNAL_ERROR, "Unexpected Error: " + ExceptionText(e))
  {
    match e
    case OtherRaised(isValueError, isRequestException, text) =>
      if isValueError then ErrorData(INVALID_PARAMS, text)
      else if isRequestException then ErrorData(INTERNAL_ERROR, "Request Error: " + text)
      else ErrorData(INTERNAL_ERROR, "Unexpected Error: " + text)
    case McpErrorRaised(_) => ErrorData(INTERNAL_ERROR, "Unexpected Error: " + ExceptionText(e))
  }

  /** `summarize_wikipedia_article(url)` as written. */
  function SummarizeWikipediaArticle(url: string, c: Collaborators): (r: Outcome)
    ensures !UrlAccepted(url) ==> r == Failed(ErrorData(INVALID_PARAMS, InvalidUrlMessage))
    ensures UrlAccepted(url) && c.get(url).Done? && c.get(url).value.status != 200 ==>
              r == Failed(ErrorData(INTERNAL_ERROR, "Unexpected Error: " + FetchFailedMessage(c.get(url).value.status)))
    ensures UrlAccepted(url) && c.get(url).Threw? ==> r == Failed(Handle(c.get(url).exception))
  {
    match TryBlock(url, c)
    case Returned(summary) => Summary(summary)
    case Raised(e) => Failed(Handle(e))
  }

  /** A rejected URL is rejected whatever the collaborators would do: nothing is fetched. */
  lemma RejectedUrlFetchesNothing(url: string, c1: Collaborators, c2: Collaborators)
    requires !UrlAccepted(url)
    ensures SummarizeWikipediaArticle(url, c1) == SummarizeWikipediaArticle(url, c2)
  {
  }

  /** The page without a main-content div ends as an internal error with the "Unexpected
      Error: " prefix, although the tool raised it as invalid parameters. */
  lemma MissingContentIsRewrapped(url: string, c: Collaborators)
    requires UrlAccepted(url) && c.get(url).Done? && c.get(url).value.status == 200
    requires c.findContent(c.get(url).value.text) == Done(None)
    ensures SummarizeWikipediaArticle(url, c)
      == Failed(ErrorData(INTERNAL_ERROR, "Unexpected Error: " + MissingContentMessage))
  {
  }

  /** A request-layer failure that is not also a `ValueError` ends as an internal error with
      the "Request Error: " prefix. */
  lemma RequestFailureIsInternal(url: string, c: Collaborators, text: string)
    requires UrlAccepted(url) && c.get(url) == Threw(OtherRaised(false, true, text))
    ensures SummarizeWikipediaArticle(url, c) == Failed(ErrorData(INTERNAL_ERROR, "Request Error: " + text))
  {
  }

  /** When every step succeeds, the model is asked with the prompt built from the Markdown
      text, and the client gets its reply stripped. */
  lemma SuccessfulSummary(url: string, c: Collaborators, div: string, markdown: string, reply: string)
    requires UrlAccepted(url) && c.get(url).Done? && c.get(url).value.status == 200
    requires c.findContent(c.get(url).value.text) == Done(Some(div))
    requires c.toMarkdown(div) == Done(markdown)
    requires c.chat("Summarize the following text:\n\n" + markdown + "\n\nSummary:") == Done(reply)
    ensures SummarizeWikipediaArticle(url, c) == Summary(Strip(reply))
  {
  }

  /** As written, the only failures reported as invalid parameters are `ValueError`s: the
      bad-URL check, or a `ValueError` from one of the collaborators. */
  lemma InvalidParamsOnlyFromValueErrors(url: string, c: Collaborators)
    requires SummarizeWikipediaArticle(url, c).Failed?
    requires SummarizeWikipediaArticle(url, c).error.code == INVALID_PARAMS
    ensures TryBlock(url, c).Raised? && TryBlock(url, c).exception.OtherRaised?
    ensures TryBlock(url, c).exception.isValueError
  {
  }

  // ---------------------------------------------------------------------------
  // The handler as evidently intended: an McpError passes through unchanged
  // ---------------------------------------------------------------------------

  /** The handler with an `except McpError: raise` clause first. */
  function HandleIntended(e: PyException): (error: ErrorData)
    ensures e.McpErrorRaised? ==> error == e.data
    ensures e.OtherRaised? ==> error == Handle(e)
  {
    match e
    case McpErrorRaised(data) => data
    case OtherRaised(_, _, _) => Handle(e)
  }

  function SummarizeIntended(url: string, c: Collaborators): (r: Outcome)
    ensures UrlAccepted(url) && c.get(url).Done? && c.get(url).value.status != 200 ==>
              r == Failed(ErrorData(INVALID_PARAMS, FetchFailedMessage(c.get(url).value.status)))
    ensures TryBlock(url, c).Returned? ==> r == SummarizeWikipediaArticle(url, c)
  {
    match TryBlock(url, c)
    case Returned(summary) => Summary(summary)
    case Raised(e) => Failed(HandleIntended(e))
  }

  /** The two handlers differ only on the tool's own `McpError`s: for every other outcome of
      the try block they agree. */
  lemma IntendedAgreesOutsideMcpErrors(url: string, c: Collaborators)
    requires !(TryBlock(url, c).Raised? && TryBlock(url, c).exception.McpErrorRaised?)
    ensures SummarizeIntended(url, c) == SummarizeWikipediaArticle(url, c)
  {
  }

  /** The missing main-content div is reported as invalid parameters with its own message
      once the `McpError` passes through. */
  lemma IntendedMissingContent(url: string, c: Collaborators)
    requires UrlAccepted(url) && c.get(url).Done? && c.get(url).value.status == 200
    requires c.findContent(c.get(url).value.text) == Done(None)
    ensures SummarizeIntended(url, c) == Failed(ErrorData(INVALID_PARAMS, MissingContentMessage))
  {
  }

  /** A page answering 404: as written, the client sees an internal error whose message
      carries the "Unexpected Error: " prefix; the intended handler passes on the
      invalid-parameters error the tool raised. */
  lemma NotFoundPageIsRewrapped(c: Collaborators, url: string)
    requires StartsWith(url, "http") && c.get(url) == Done(HttpResponse(404, ""))
    ensures SummarizeWikipediaArticle(url, c)
      == Failed(ErrorData(INTERNAL_ERROR, "Unexpected Error: " + "Failed to fetch the article. Status code: 404"))
    ensures SummarizeIntended(url, c)
      == Failed(ErrorData(INVALID_PARAMS, "Failed to fetch the article. Status code: 404"))
  {
    FetchFailed404();
  }

  lemma FetchFailed404()
    ensures FetchFailedMessage(404) == "Failed to fetch the article. Status code: 404"
  {
    assert IntToString(404) == "404" by {
      assert NatToString(404) == NatToString(40) + [DigitChar(4)];
      assert NatToString(40) == NatToString(4) + [DigitChar(0)];
    }
    assert "Failed to fetch the article. Status code: 404"
      == "Failed to fetch the article. Status code: " + "404";
  }
}
