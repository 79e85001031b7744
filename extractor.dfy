/**
 * The content-extraction heuristic of the template fetcher: the target URL, the ordered
 * selector search inside one rendering context with its fallback to the document body,
 * the ranking of frames by URL keyword, and the search across frames.
 *
 * The browser is abstracted away: a rendering context is what its selectors match.
 */
module Extractor {
  import opened Optional
  import opened JsString
  import opened UriComponent

  const TargetPrefix: string := "https://www.135editor.com/editor_styles/"
  const TargetSuffix: string := "?preview=1"

  /** The page a template id is fetched from. */
  function GetTargetUrl(templateId: string): (r: string)
    ensures |TargetPrefix| + |TargetSuffix| <= |r|
    ensures r[..|TargetPrefix|] == TargetPrefix && r[|r| - |TargetSuffix|..] == TargetSuffix
    ensures forall i :: |TargetPrefix| <= i < |r| - |TargetSuffix| ==>
              IsUnreserved(r[i]) || r[i] == '%' || IsHexDigit(r[i])
  {
    TargetPrefix + EncodeURIComponent(templateId) + TargetSuffix
  }

  /** The candidate containers, most preferred first. */
  const Selectors: seq<string> := [
    "#js_content", "article", ".rich_media_content",
    ".preview", ".preview-container", ".preview-content", ".editor-preview",
    ".content", ".page", "#page"
  ]

  /** A container counts only when its outer HTML is longer than this (in UTF-16 code units). */
  const MinContentLength := 300

  /**
   * What evaluating in one rendering context (the page or a frame) can observe:
   * the outer HTML of the first element each selector matches (no entry: no match),
   * the outer HTML of the body if the document has one, and whether evaluation throws.
   */
  datatype Context = Context(matches: map<string, string>, body: Option<string>, throws: bool)

  /** A frame of the page: its URL and its rendering context. */
  datatype Frame = Frame(url: string, context: Context)

  /** What `extractFromIframes` reports: the HTML found and the URL of the frame it came from. */
  datatype IframeResult = IframeResult(html: Option<string>, frameUrl: Option<string>)

  /** The index of the first element of `s` satisfying `p`, or `|s|` if there is none. */
  function FirstIndex<T>(s: seq<T>, p: T -> bool): (k: nat)
    ensures k <= |s|
    ensures k < |s| ==> p(s[k])
    ensures forall j :: 0 <= j < k ==> !p(s[j])
  {
    if s == [] then 0 else if p(s[0]) then 0 else 1 + FirstIndex(s[1..], p)
  }

  /** Those three properties determine the first index. */
  lemma FirstIndexUnique<T>(s: seq<T>, p: T -> bool, k: nat)
    requires k <= |s| && (k < |s| ==> p(s[k]))
    requires forall j :: 0 <= j < k ==> !p(s[j])
    ensures FirstIndex(s, p) == k
  {
  }

  // ---- selector search inside one context ----

  /** `sel` matches an element whose outer HTML is long enough to be taken. */
  predicate Qualifies(ctx: Context, sel: string) {
    sel in ctx.matches && Utf16Length(ctx.matches[sel]) > MinContentLength
  }

  /**
   * The index of the first selector of `sels` that qualifies in `ctx`, or `|sels|`: `FirstIndex`
   * specialised to `Qualifies`, written out to keep the extraction loop's proof cheap.
   */
  function FirstQualifying(ctx: Context, sels: seq<string>): (k: nat)
    ensures k <= |sels|
    ensures k < |sels| ==> Qualifies(ctx, sels[k])
    ensures forall j :: 0 <= j < k ==> !Qualifies(ctx, sels[j])
  {
    if sels == [] then 0 else if Qualifies(ctx, sels[0]) then 0 else 1 + FirstQualifying(ctx, sels[1..])
  }

  /** Those three properties determine the first qualifying selector. */
  lemma FirstQualifyingUnique(ctx: Context, sels: seq<string>, k: nat)
    requires k <= |sels| && (k < |sels| ==> Qualifies(ctx, sels[k]))
    requires forall j :: 0 <= j < k ==> !Qualifies(ctx, sels[j])
    ensures FirstQualifying(ctx, sels) == k
  {
  }

  /**
   * The specification of `tryExtractFromContext` for the selector list `sels`: null when
   * evaluation throws; otherwise the match of the first qualifying selector; otherwise the body.
   */
  function Extracted(ctx: Context, sels: seq<string>): Option<string> {
    if ctx.throws then None
    else
      var k := FirstQualifying(ctx, sels);
      if k < |sels| then Some(ctx.matches[sels[k]]) else ctx.body
  }

  /** `tryExtractFromContext(ctx)`: the in-page loop over `Selectors`, evaluation errors caught. */
  method TryExtractFromContext(ctx: Context) returns (html: Option<string>)
    ensures html == Extracted(ctx, Selectors)
  {
    if ctx.throws {
      return None;
    }
    var i := 0;
    while i < |Selectors|
      invariant 0 <= i <= |Selectors|
      invariant forall j :: 0 <= j < i ==> !Qualifies(ctx, Selectors[j])
    {
      var sel := Selectors[i];
      if sel in ctx.matches && Utf16Length(ctx.matches[sel]) > MinContentLength {
        FirstQualifyingUnique(ctx, Selectors, i);
        return Some(ctx.matches[sel]);
      }
      i := i + 1;
    }
    FirstQualifyingUnique(ctx, Selectors, i);
    return ctx.body;
  }

  /**
   * First match wins: when selector `i` qualifies, the result is the match of a qualifying
   * selector at or before `i`, and of none that comes earlier and does not qualify.
   */
  lemma {:induction false} EarliestSelectorWins(ctx: Context, sels: seq<string>, i: nat)
    requires !ctx.throws && i < |sels| && Qualifies(ctx, sels[i])
    ensures exists k :: 0 <= k <= i && Qualifies(ctx, sels[k])
                      && Extracted(ctx, sels) == Some(ctx.matches[sels[k]])
                      && (forall j :: 0 <= j < k ==> !Qualifies(ctx, sels[j]))
  {
    var k := FirstQualifying(ctx, sels);
    assert k <= i;
  }

  /** A selector is never taken while an earlier one qualifies. */
  lemma LaterSelectorLoses(ctx: Context, sels: seq<string>, i: nat, j: nat)
    requires i < j < |sels| && Qualifies(ctx, sels[i])
    ensures FirstQualifying(ctx, sels) != j
  {
  }

  /** A selector's match is taken only when it is longer than the threshold. */
  lemma TakenMatchIsLong(ctx: Context, sels: seq<string>)
    requires !ctx.throws && exists i :: 0 <= i < |sels| && Qualifies(ctx, sels[i])
    ensures Extracted(ctx, sels).Some? && Utf16Length(Extracted(ctx, sels).value) > MinContentLength
  {
  }

  /** With no qualifying selector the body is returned as it is, whatever its length, or null. */
  lemma BodyFallback(ctx: Context, sels: seq<string>)
    requires !ctx.throws && forall i :: 0 <= i < |sels| ==> !Qualifies(ctx, sels[i])
    ensures Extracted(ctx, sels) == ctx.body
  {
    FirstQualifyingUnique(ctx, sels, |sels|);
  }

  /** An evaluation error yields null. */
  lemma EvaluationErrorYieldsNull(ctx: Context, sels: seq<string>)
    requires ctx.throws
    ensures Extracted(ctx, sels) == None
  {
  }

  // ---- frame ranking ----

  /** The URL carries one of the hints that mark a frame as a likely preview. */
  predicate IsPreferredUrl(url: string)
    ensures IsPreferredUrl(url) ==> |url| >= |"style"|
  {
    Includes(url, "preview") || Includes(url, "editor_styles") || Includes(url, "style") || Includes(url, "render")
  }

  predicate IsPreferred(f: Frame) {
    IsPreferredUrl(f.url)
  }

  /** The position of the frame `frames.find(...)` picks, or `|frames|` when there is none. */
  function PreferredIndex(frames: seq<Frame>): (k: nat)
    ensures k <= |frames|
    ensures k < |frames| ==> IsPreferredUrl(frames[k].url)
    ensures forall j :: 0 <= j < k ==> !IsPreferredUrl(frames[j].url)
  {
    FirstIndex(frames, IsPreferred)
  }

  /** `[s[i], ...s without its i-th element]`. */
  function MoveToFront<T>(s: seq<T>, i: nat): (r: seq<T>)
    requires i < |s|
  {
    [s[i]] + s[..i] + s[i + 1..]
  }

  /**
   * Where each element goes: the one at `i` comes first, those before it move back by one,
   * those after it stay where they are; nothing is lost or added.
   */
  lemma MoveToFrontPositions<T>(s: seq<T>, i: nat)
    requires i < |s|
    ensures |MoveToFront(s, i)| == |s| && MoveToFront(s, i)[0] == s[i]
    ensures forall j :: 0 <= j < i ==> MoveToFront(s, i)[j + 1] == s[j]
    ensures forall j :: i < j < |s| ==> MoveToFront(s, i)[j] == s[j]
    ensures multiset(MoveToFront(s, i)) == multiset(s)
  {
    var others := s[..i] + s[i + 1..];
    assert MoveToFront(s, i) == [s[i]] + others;
    assert forall j :: 0 <= j < i ==> others[j] == s[j];
    assert forall j :: i < j < |s| ==> others[j - 1] == s[j];
    assert s == s[..i] + [s[i]] + s[i + 1..];
  }

  /** The order frames are tried in: the first preferred frame moved to the front. */
  function Rank(frames: seq<Frame>): (r: seq<Frame>)
    ensures |r| == |frames|
    ensures (exists f :: f in frames && IsPreferredUrl(f.url)) ==> IsPreferredUrl(r[0].url)
    ensures (forall f :: f in frames ==> !IsPreferredUrl(f.url)) ==> r == frames
  {
    var i := PreferredIndex(frames);
    if i < |frames| then MoveToFront(frames, i) else frames
  }

  /** Ranking is a permutation of the frames. */
  lemma RankIsPermutation(frames: seq<Frame>)
    ensures |Rank(frames)| == |frames|
    ensures multiset(Rank(frames)) == multiset(frames)
  {
    var i := PreferredIndex(frames);
    if i < |frames| {
      MoveToFrontPositions(frames, i);
    }
  }

  /**
   * Where each frame goes: the first preferred frame, at index `i`, is tried first; the frames
   * before it move back by one; the frames after it stay where they are.
   */
  lemma RankPositions(frames: seq<Frame>)
    ensures |Rank(frames)| == |frames|
    ensures var i := PreferredIndex(frames);
            i < |frames| ==>
              && Rank(frames)[0] == frames[i]
              && (forall j :: 0 <= j < i ==> Rank(frames)[j + 1] == frames[j])
              && (forall j :: i < j < |frames| ==> Rank(frames)[j] == frames[j])
  {
    var i := PreferredIndex(frames);
    if i < |frames| {
      MoveToFrontPositions(frames, i);
    }
  }

  /** When some URL carries a hint, the first such frame comes first. */
  lemma RankPutsFirstPreferredFirst(frames: seq<Frame>, i: nat)
    requires i < |frames| && IsPreferredUrl(frames[i].url)
    ensures exists k :: 0 <= k <= i && IsPreferredUrl(frames[k].url) && Rank(frames)[0] == frames[k]
                      && (forall j :: 0 <= j < k ==> !IsPreferredUrl(frames[j].url))
  {
    RankPositions(frames);
    assert PreferredIndex(frames) <= i;
  }

  /** Every frame other than the one moved keeps its relative order. */
  lemma RankKeepsOthersInOrder(frames: seq<Frame>)
    requires PreferredIndex(frames) < |frames|
    ensures var i := PreferredIndex(frames);
            Rank(frames)[1..] == frames[..i] + frames[i + 1..]
  {
    var i := PreferredIndex(frames);
    assert MoveToFront(frames, i) == [frames[i]] + (frames[..i] + frames[i + 1..]);
  }

  /** When no URL carries a hint, the order is unchanged. */
  lemma RankWithoutHints(frames: seq<Frame>)
    requires forall j :: 0 <= j < |frames| ==> !IsPreferredUrl(frames[j].url)
    ensures Rank(frames) == frames
  {
    FirstIndexUnique(frames, IsPreferred, |frames|);
  }

  /** When the first frame already carries a hint, the order is unchanged. */
  lemma RankKeepsPreferredHead(frames: seq<Frame>)
    requires frames != [] && IsPreferredUrl(frames[0].url)
    ensures Rank(frames) == frames
  {
    assert PreferredIndex(frames) == 0;
    assert MoveToFront(frames, 0) == frames;
  }

  /** The hint "editor_styles" never decides anything: every URL that has it also has "style". */
  lemma EditorStylesHintIsRedundant(url: string)
    ensures IsPreferredUrl(url) <==> Includes(url, "preview") || Includes(url, "style") || Includes(url, "render")
  {
    if Includes(url, "editor_styles") {
      IncludesPiece(url, "editor_styles", 7, 12);
      assert "editor_styles"[7..12] == "style";
    }
  }

  /** The target page's own URL carries hints, so a main frame still at that URL is ranked first. */
  lemma TargetUrlIsPreferred(templateId: string)
    ensures IsPreferredUrl(GetTargetUrl(templateId))
  {
    assert TargetPrefix[26..39] == "editor_styles";
    assert OccursAt(TargetPrefix, "editor_styles", 26);
    IncludesExtended(TargetPrefix, EncodeURIComponent(templateId), "editor_styles");
    IncludesExtended(TargetPrefix + EncodeURIComponent(templateId), TargetSuffix, "editor_styles");
  }

  /** For a decimal id the URL carries the id as it is. */
  lemma TargetUrlOfDigits(templateId: string)
    requires forall i :: 0 <= i < |templateId| ==> '0' <= templateId[i] <= '9'
    ensures GetTargetUrl(templateId) == "https://www.135editor.com/editor_styles/" + templateId + "?preview=1"
  {
    EncodeKeepsUnreserved(templateId);
  }

  /** Different ids lead to different pages. */
  lemma TargetUrlInjective(a: string, b: string)
    requires GetTargetUrl(a) == GetTargetUrl(b)
    ensures a == b
  {
    var ea, eb := EncodeURIComponent(a), EncodeURIComponent(b);
    var n := |TargetPrefix|;
    assert |ea| == |eb|;
    assert ea == GetTargetUrl(a)[n..n + |ea|];
    assert eb == GetTargetUrl(b)[n..n + |eb|];
    EncodeInjective(a, b);
  }

  // ---- search across frames ----

  /** The HTML a frame yields is used only when it is longer than the threshold. */
  predicate Usable(html: Option<string>) {
    html.Some? && Utf16Length(html.value) > MinContentLength
  }

  /** The frame's own extraction is usable. */
  predicate YieldsContent(f: Frame) {
    Usable(Extracted(f.context, Selectors))
  }

  /** The specification of `extractFromIframes`: the first ranked frame whose HTML is usable. */
  function IframeSearch(frames: seq<Frame>): IframeResult {
    var candidates := Rank(frames);
    var k := FirstIndex(candidates, YieldsContent);
    if k < |candidates| then IframeResult(Extracted(candidates[k].context, Selectors), Some(candidates[k].url))
    else IframeResult(None, None)
  }

  /** `extractFromIframes(page)`: tries the ranked frames in order and stops at the first usable one. */
  method ExtractFromIframes(frames: seq<Frame>) returns (r: IframeResult)
    ensures r == IframeSearch(frames)
  {
    var candidates := Rank(frames);
    var i := 0;
    while i < |candidates|
      invariant 0 <= i <= |candidates|
      invariant forall j :: 0 <= j < i ==> !YieldsContent(candidates[j])
    {
      var frame := candidates[i];
      var html := TryExtractFromContext(frame.context);
      if html.Some? && Utf16Length(html.value) > MinContentLength {
        assert YieldsContent(candidates[i]);
        FirstIndexUnique(candidates, YieldsContent, i);
        return IframeResult(html, Some(frame.url));
      }
      assert !YieldsContent(frame);
      i := i + 1;
    }
    FirstIndexUnique(candidates, YieldsContent, i);
    return IframeResult(None, None);
  }

  /**
   * The frame search reports HTML and a frame URL together, or neither; reported HTML is longer
   * than the threshold and comes from a frame in the list.
   */
  lemma IframeSearchOutcome(frames: seq<Frame>)
    ensures var r := IframeSearch(frames);
            && (r.html.Some? <==> r.frameUrl.Some?)
            && (r.html.Some? ==> Usable(r.html))
            && (r.html.Some? ==> exists f :: f in frames && f.url == r.frameUrl.value
                                              && Extracted(f.context, Selectors) == r.html)
  {
    RankIsPermutation(frames);
    var candidates := Rank(frames);
    var k := FirstIndex(candidates, YieldsContent);
    if k < |candidates| {
      assert candidates[k] in multiset(frames);
    }
  }

  /** The frame search comes back empty exactly when no frame yields usable HTML. */
  lemma IframeSearchEmpty(frames: seq<Frame>)
    ensures IframeSearch(frames).html.None? <==>
            forall f :: f in frames ==> !Usable(Extracted(f.context, Selectors))
  {
    RankIsPermutation(frames);
    var candidates := Rank(frames);
    var k := FirstIndex(candidates, YieldsContent);
    if k < |candidates| {
      assert candidates[k] in multiset(frames);
    } else {
      forall f | f in frames ensures !YieldsContent(f) {
        assert f in multiset(candidates);
        var j :| 0 <= j < |candidates| && candidates[j] == f;
      }
    }
  }

  /** A usable first preferred frame wins over every other frame. */
  lemma PreferredFrameWins(frames: seq<Frame>)
    requires PreferredIndex(frames) < |frames|
    requires Usable(Extracted(frames[PreferredIndex(frames)].context, Selectors))
    ensures IframeSearch(frames) == IframeResult(Extracted(frames[PreferredIndex(frames)].context, Selectors),
                                                 Some(frames[PreferredIndex(frames)].url))
  {
    RankPositions(frames);
    FirstIndexUnique(Rank(frames), YieldsContent, 0);
  }

  /**
   * While the main frame is still at the target URL it carries the hints itself, so no
   * iframe is promoted: an earlier unhinted frame with usable HTML wins over a later one,
   * even when that later one is a hinted preview frame.
   */
  lemma MainFrameBlocksPromotion(templateId: string, main: Context, ad: string, other: Frame, adContext: Context)
    requires !YieldsContent(Frame(GetTargetUrl(templateId), main))
    requires Usable(Extracted(adContext, Selectors))
    ensures IframeSearch([Frame(GetTargetUrl(templateId), main), Frame(ad, adContext), other])
            == IframeResult(Extracted(adContext, Selectors), Some(ad))
  {
    var frames := [Frame(GetTargetUrl(templateId), main), Frame(ad, adContext), other];
    TargetUrlIsPreferred(templateId);
    RankKeepsPreferredHead(frames);
    FirstIndexUnique(frames, YieldsContent, 1);
  }
}
