/**
 * The `GET /api/template?id=...` handler: validation of the id, the browser session around
 * the extraction, the choice between the main page's HTML and the frames' HTML, and the
 * response sent.  Browser steps are abstract: each one resolves or throws.
 */
module TemplateRoute {
  import opened Optional
  import opened JsString
  import opened Extractor

  /** The outcome of one asynchronous browser call. */
  datatype Step = Resolves | Throws

  /**
   * What the browser does during one request: the outcome of each awaited call before
   * extraction, and the page as rendered (its main document and its frames, `page.frames()`).
   */
  datatype Browser = Browser(
    launch: Step, newPage: Step, setUserAgent: Step, setViewport: Step, goto: Step, settle: Step,
    page: Context, frames: seq<Frame>)

  /** The response sent to the caller. */
  datatype Response =
    | BadRequest                                                    // 400 with an error message
    | Ok(body: string)                                              // 200 text/plain
    | NotFound(targetUrl: string, iframeUrlTried: Option<string>)   // 404
    | ServerError(targetUrl: string)                                // 500

  /** The observable side effects on the browser, in order. */
  datatype Event = Launch | Navigate(url: string) | Close

  /** `(req.query.id || "").toString().trim()`. */
  function TemplateId(query: Option<string>): (r: string)
    ensures query.None? ==> r == []
    ensures r == [] || (!IsWhiteSpace(r[0]) && !IsWhiteSpace(r[|r| - 1]))
  {
    match query
    case None => ""
    case Some(id) => Trim(id)
  }

  /** The calls before `goto` (launch, `newPage`, `setUserAgent`, `setViewport`) all resolve. */
  predicate SetupResolves(b: Browser) {
    b.launch.Resolves? && b.newPage.Resolves? && b.setUserAgent.Resolves? && b.setViewport.Resolves?
  }

  /** Every awaited call up to and including the settle delay resolves. */
  predicate PageReady(b: Browser) {
    SetupResolves(b) && b.goto.Resolves? && b.settle.Resolves?
  }

  /** The route's own check on HTML: present and not shorter than the threshold. */
  predicate NotShort(html: Option<string>) {
    html.Some? && Utf16Length(html.value) >= MinContentLength
  }

  /**
   * The choice once the page is ready: the main page's HTML if it is not short, else the
   * frames' HTML if that is not short, else not found.
   */
  function Decide(targetUrl: string, main: Option<string>, fromFrames: IframeResult): Response {
    if NotShort(main) then Ok(Trim(main.value))
    else if NotShort(fromFrames.html) then Ok(Trim(fromFrames.html.value))
    else NotFound(targetUrl, fromFrames.frameUrl)
  }

  /**
   * The specification of the handler: a blank id is rejected; a failed browser call is a
   * server error; otherwise the choice between the main page and the frames.
   */
  function Respond(query: Option<string>, b: Browser): (r: Response)
    ensures r.BadRequest? <==> TemplateId(query) == []
    ensures r.ServerError? <==> TemplateId(query) != [] && !PageReady(b)
    ensures r.ServerError? || r.NotFound? ==> r.targetUrl == GetTargetUrl(TemplateId(query))
  {
    var id := TemplateId(query);
    if id == [] then BadRequest
    else if !PageReady(b) then ServerError(GetTargetUrl(id))
    else Decide(GetTargetUrl(id), Extracted(b.page, Selectors), IframeSearch(b.frames))
  }

  /**
   * The part of the handler that runs once the page has settled: extraction from the main
   * page, the frames as a fallback, and the response.
   */
  method RespondFromPage(targetUrl: string, page: Context, frames: seq<Frame>) returns (response: Response)
    ensures response == Decide(targetUrl, Extracted(page, Selectors), IframeSearch(frames))
  {
    var html := TryExtractFromContext(page);
    if html.None? || Utf16Length(html.value) < MinContentLength {
      var iframeResult := ExtractFromIframes(frames);
      html := iframeResult.html;
      if html.None? || Utf16Length(html.value) < MinContentLength {
        return NotFound(targetUrl, iframeResult.frameUrl);
      }
    }
    return Ok(Trim(html.value));
  }

  /**
   * The browser events of one request: none for a blank id; otherwise the launch, the
   * navigation once the setup calls resolve, and the close in `finally` whenever the launch
   * assigned a browser.
   */
  function HandlerLog(query: Option<string>, b: Browser): seq<Event> {
    if TemplateId(query) == [] then []
    else
      [Launch]
      + (if SetupResolves(b) then [Navigate(GetTargetUrl(TemplateId(query)))] else [])
      + (if b.launch.Resolves? then [Close] else [])
  }

  /**
   * A request launches first, navigates to the target URL and nowhere else exactly when the
   * setup calls resolve, and closes once, last, exactly when the launch succeeded.
   */
  lemma HandlerLogShape(query: Option<string>, b: Browser)
    ensures var log, targetUrl := HandlerLog(query, b), GetTargetUrl(TemplateId(query));
            && (log == [] <==> TemplateId(query) == [])
            && (log != [] ==> log[0] == Launch)
            && (forall url :: Navigate(url) in log ==> url == targetUrl)
            && (Navigate(targetUrl) in log <==> TemplateId(query) != [] && SetupResolves(b))
            && (Close in log <==> TemplateId(query) != [] && b.launch.Resolves?)
            && (Close in log ==> log[|log| - 1] == Close)
            && (forall k, l :: 0 <= k < l < |log| ==> log[k] != log[l])
  {
  }

  /**
   * The `try` and `catch` blocks of the handler for a non-blank id: a thrown call skips the
   * rest of the `try` block and answers 500. It reports whether `browser` was assigned and
   * the events so far.
   */
  method TryCatch(targetUrl: string, b: Browser) returns (response: Response, browserAssigned: bool, log: seq<Event>)
    ensures browserAssigned <==> b.launch.Resolves?
    ensures log == [Launch] + (if SetupResolves(b) then [Navigate(targetUrl)] else [])
    ensures response == if PageReady(b) then Decide(targetUrl, Extracted(b.page, Selectors), IframeSearch(b.frames))
                        else ServerError(targetUrl)
  {
    // try
    browserAssigned := false;
    log := [Launch];
    var thrown := b.launch.Throws?;
    if !thrown {
      browserAssigned := true;
      thrown := b.newPage.Throws? || b.setUserAgent.Throws? || b.setViewport.Throws?;
    }
    if !thrown {
      log := log + [Navigate(targetUrl)];
      thrown := b.goto.Throws? || b.settle.Throws?;
    }
    if !thrown {
      response := RespondFromPage(targetUrl, b.page, b.frames);
    } else {
      // catch
      response := ServerError(targetUrl);
    }
  }

  /**
   * The handler. After `try` and `catch`, the `finally` block closes the browser whenever it
   * was assigned, ignoring a failing close.
   */
  method HandleTemplate(query: Option<string>, b: Browser) returns (response: Response, log: seq<Event>)
    ensures response == Respond(query, b)
    ensures log == HandlerLog(query, b)
    ensures log == [] <==> TemplateId(query) == []
    ensures log != [] ==> log[0] == Launch
    ensures forall url :: Navigate(url) in log ==> url == GetTargetUrl(TemplateId(query))
    ensures Navigate(GetTargetUrl(TemplateId(query))) in log <==> TemplateId(query) != [] && SetupResolves(b)
    ensures Close in log <==> TemplateId(query) != [] && b.launch.Resolves?
    ensures Close in log ==> log[|log| - 1] == Close
    ensures forall k, l :: 0 <= k < l < |log| ==> log[k] != log[l]
  {
    HandlerLogShape(query, b);
    var templateId := TemplateId(query);
    if templateId == [] {
      return BadRequest, [];
    }
    var targetUrl := GetTargetUrl(templateId);
    var browserAssigned;
    response, browserAssigned, log := TryCatch(targetUrl, b);

    // finally: a rejected close is caught and ignored
    if browserAssigned {
      log := log + [Close];
    }
  }

  /** Only a blank id is rejected, and nothing else is: any other id, digits or not, is fetched. */
  lemma OnlyBlankIdRejected(query: Option<string>, b: Browser)
    ensures Respond(query, b) == BadRequest <==> TemplateId(query) == []
    ensures Respond(query, b).NotFound? || Respond(query, b).ServerError? ==>
              Respond(query, b).targetUrl == GetTargetUrl(TemplateId(query))
  {
  }

  /** "abc" is not rejected: the route does not check that the id is decimal. */
  lemma NonDecimalIdIsFetched(b: Browser)
    ensures Respond(Some("abc"), b) != BadRequest
  {
    TrimKeepsTightString("abc");
  }

  /**
   * A 200 body is the trimmed HTML of the main page, when that is not shorter than the
   * threshold, or else of a frame, when that is longer than the threshold.
   */
  lemma SuccessBody(query: Option<string>, b: Browser, body: string)
    requires Respond(query, b) == Ok(body)
    ensures PageReady(b) && TemplateId(query) != []
    ensures var main := Extracted(b.page, Selectors);
            || (main.Some? && Utf16Length(main.value) >= MinContentLength && body == Trim(main.value))
            || (!NotShort(main) && exists f :: f in b.frames && Usable(Extracted(f.context, Selectors))
                                     && body == Trim(Extracted(f.context, Selectors).value))
  {
    IframeSearchOutcome(b.frames);
  }

  /** A 404 always names the target URL and never a frame: `iframeUrlTried` is null. */
  lemma NotFoundNeverNamesFrame(query: Option<string>, b: Browser, targetUrl: string, tried: Option<string>)
    requires Respond(query, b) == NotFound(targetUrl, tried)
    ensures targetUrl == GetTargetUrl(TemplateId(query))
    ensures tried == None
  {
    IframeSearchOutcome(b.frames);
  }

  /** A 404 happens exactly when neither the main page nor any frame yields enough HTML. */
  lemma NotFoundExactly(query: Option<string>, b: Browser)
    requires TemplateId(query) != [] && PageReady(b)
    ensures Respond(query, b).NotFound? <==>
            && !NotShort(Extracted(b.page, Selectors))
            && forall f :: f in b.frames ==> !Usable(Extracted(f.context, Selectors))
  {
    IframeSearchOutcome(b.frames);
    IframeSearchEmpty(b.frames);
  }

  /** When the main page's HTML is not short, the frames are never consulted. */
  lemma MainPageDecides(query: Option<string>, b: Browser, frames: seq<Frame>)
    requires NotShort(Extracted(b.page, Selectors))
    ensures Respond(query, b) == Respond(query, b.(frames := frames))
  {
  }

  /**
   * Main page short, the first frame whose URL carries a hint yields enough HTML: the body
   * comes from that frame.
   */
  lemma PreviewFrameFallback(query: Option<string>, b: Browser)
    requires TemplateId(query) != [] && PageReady(b) && !NotShort(Extracted(b.page, Selectors))
    requires PreferredIndex(b.frames) < |b.frames|
    requires Usable(Extracted(b.frames[PreferredIndex(b.frames)].context, Selectors))
    ensures Respond(query, b) == Ok(Trim(Extracted(b.frames[PreferredIndex(b.frames)].context, Selectors).value))
  {
    PreferredFrameWins(b.frames);
  }

  /** Thresholds differ, first half: a body of exactly 300 code units from the main page is accepted. */
  lemma MainPageAtThresholdAccepted(targetUrl: string, fromFrames: IframeResult, html: string)
    requires Utf16Length(html) == MinContentLength
    ensures Decide(targetUrl, Extracted(Context(map[], Some(html), false), Selectors), fromFrames) == Ok(Trim(html))
  {
    BodyFallback(Context(map[], Some(html), false), Selectors);
  }

  /**
   * Thresholds differ, second half: the same body from a frame is refused, and the
   * 404 names no frame.
   */
  lemma FrameAtThresholdRefused(targetUrl: string, frameUrl: string, html: string)
    requires Utf16Length(html) == MinContentLength
    ensures Decide(targetUrl, None, IframeSearch([Frame(frameUrl, Context(map[], Some(html), false))]))
            == NotFound(targetUrl, None)
  {
    var ctx := Context(map[], Some(html), false);
    BodyFallback(ctx, Selectors);
    var frames := [Frame(frameUrl, ctx)];
    assert forall f :: f in frames ==> !YieldsContent(f);
    IframeSearchEmpty(frames);
    IframeSearchOutcome(frames);
    assert IframeSearch(frames) == IframeResult(None, None);
  }
}
