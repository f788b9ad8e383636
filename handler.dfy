/** The `POST /api/classify` handler: choose the input from the request body,
    reject a blank one, extract the features and assemble the mock verdict. */
module Handler {
  import opened Wrappers
  import opened Text
  import opened Features

  /** The body of the 400 response for a missing or blank input. */
  const NoInputError: string := "No text or URL provided."

  const KeywordsFound: string := "Contains suspicious keywords."
  const NoKeywords: string := "No suspicious keywords detected."
  const LinksFound: string := "Includes link(s) that may be used for phishing."
  const NoLinks: string := "No external links found."

  /** One entry of the response's `urls` list. */
  datatype UrlVerdict = UrlVerdict(url: string, verdict: string)

  /** An element of the response's `highlights` list. The handler only ever
      sends the empty list, so only that list is modelled; the fields of an
      element stand for nothing the handler computes. */
  datatype Highlight = Highlight(start: nat, end: nat, kind: string)

  /** The JSON object of a 200 response. */
  datatype Response = Response(
    labelText: string,  // the JSON key `label`
    score: int,
    reasons: seq<string>,
    urls: seq<UrlVerdict>,
    highlights: seq<Highlight>)

  /** JavaScript truthiness of an optional string field of the body: an absent
      field and the empty string are falsy, every other string is truthy
      (including one made only of whitespace). */
  predicate Truthy(v: Option<string>) {
    v.Some? && v.value != ""
  }

  /** `text || url || ""`. */
  function SelectInput(text: Option<string>, url: Option<string>): string {
    if Truthy(text) then text.value
    else if Truthy(url) then url.value
    else ""
  }

  /** One point, plus one per keyword and two per link, capped at five. */
  function Score(f: Features): (score: int)
    ensures 1 <= score <= 5
    ensures score == 1 <==> f.suspiciousWords == 0 && f.numLinks == 0
    ensures f.numLinks >= 2 ==> score == 5
  {
    var raw := f.suspiciousWords + f.numLinks * 2 + 1;
    if raw < 5 then raw else 5
  }

  /** `"Phishing"` when any keyword or link was found, `"Safe"` otherwise. */
  function Label(f: Features): (l: string)
    ensures l == "Phishing" || l == "Safe"
    ensures l == "Safe" <==> Score(f) == 1
  {
    if f.suspiciousWords > 0 || f.numLinks > 0 then "Phishing" else "Safe"
  }

  /** The two reason sentences: keywords first, then links. */
  function Reasons(f: Features): (reasons: seq<string>)
    ensures |reasons| == 2
    ensures reasons[0] == KeywordsFound <==> f.suspiciousWords > 0
    ensures reasons[0] == NoKeywords <==> f.suspiciousWords == 0
    ensures reasons[1] == LinksFound <==> f.numLinks > 0
    ensures reasons[1] == NoLinks <==> f.numLinks == 0
  {
    [if f.suspiciousWords > 0 then KeywordsFound else NoKeywords,
     if f.numLinks > 0 then LinksFound else NoLinks]
  }

  /** The links of the input, rescanned with the link pattern, each paired
      with the placeholder verdict `"unknown"`. */
  function UrlVerdicts(input: string): (urls: seq<UrlVerdict>)
    ensures |urls| == |FindLinks(input)|
    ensures forall i :: 0 <= i < |urls| ==> urls[i].url == FindLinks(input)[i] && urls[i].verdict == "unknown"
  {
    var links := FindLinks(input);
    seq(|links|, i requires 0 <= i < |links| => UrlVerdict(links[i], "unknown"))
  }

  /** The handler on the chosen input: the 400 error for a blank input,
      otherwise the mock verdict built from the input's features. */
  function ClassifyInput(input: string): (r: Result<Response, string>)
    ensures r.Err? <==> Blank(input)
    ensures r.Err? ==> r.error == NoInputError
  {
    TrimEmptyIffBlank(input);
    if Trim(input) == "" then Err(NoInputError)
    else
      var f := ExtractFeatures(input);
      Ok(Response(Label(f), Score(f), Reasons(f), UrlVerdicts(input), []))
  }

  /** `POST /api/classify` with body `{text, url}`. */
  function Classify(text: Option<string>, url: Option<string>): Result<Response, string> {
    ClassifyInput(SelectInput(text, url))
  }

  /** `text || url || ""`: a truthy `text` wins, otherwise a truthy `url`,
      otherwise the empty string. */
  lemma SelectInputChoice(text: Option<string>, url: Option<string>)
    ensures Truthy(text) ==> SelectInput(text, url) == text.value
    ensures !Truthy(text) && Truthy(url) ==> SelectInput(text, url) == url.value
    ensures SelectInput(text, url) == "" <==> !Truthy(text) && !Truthy(url)
  {
  }

  /** A request with neither a truthy `text` nor a truthy `url` is rejected. */
  lemma MissingInputRejected(text: Option<string>, url: Option<string>)
    requires !Truthy(text) && !Truthy(url)
    ensures Classify(text, url) == Err(NoInputError)
  {
  }

  /** A non-empty `text` made only of whitespace is truthy, so it is chosen
      over any `url` and the request is rejected. */
  lemma BlankTextShadowsUrl(w: string, url: Option<string>)
    requires w != "" && Blank(w)
    ensures Classify(Some(w), url) == Err(NoInputError)
  {
  }

  /** A falsy `text` (absent or empty) makes the request behave as if `url`
      had been sent as the only field. */
  lemma FalsyTextFallsBackToUrl(text: Option<string>, url: Option<string>)
    requires !Truthy(text)
    ensures Classify(text, url) == Classify(url, None)
  {
    assert SelectInput(text, url) == SelectInput(url, None);
  }

  /** The response to an accepted input, built from its features. */
  lemma AcceptedResponse(input: string)
    requires !Blank(input)
    ensures var f := ExtractFeatures(input);
      ClassifyInput(input) == Ok(Response(Label(f), Score(f), Reasons(f), UrlVerdicts(input), []))
  {
    TrimEmptyIffBlank(input);
  }

  /** The score of an accepted input follows its feature counts and lies in
      1..5. */
  lemma ResponseScore(input: string)
    requires !Blank(input)
    ensures ClassifyInput(input).Ok?
    ensures var f := ExtractFeatures(input);
      var score := ClassifyInput(input).value.score;
      && 1 <= score <= 5
      && score == (if f.suspiciousWords + 2 * f.numLinks + 1 <= 5 then f.suspiciousWords + 2 * f.numLinks + 1 else 5)
      && f.numLinks == |FindLinks(input)| && f.suspiciousWords == |KeywordMatches(input)|
  {
    AcceptedResponse(input);
  }

  /** The label of an accepted input is `"Phishing"` exactly when the input
      holds a link or a keyword, and `"Safe"` exactly when the score is 1. */
  lemma ResponseLabel(input: string)
    requires !Blank(input)
    ensures ClassifyInput(input).Ok?
    ensures var resp := ClassifyInput(input).value;
      && (resp.labelText == "Phishing" || resp.labelText == "Safe")
      && (resp.labelText == "Phishing" <==> FindLinks(input) != [] || KeywordMatches(input) != [])
      && (resp.labelText == "Safe" <==> resp.score == 1)
  {
    AcceptedResponse(input);
  }

  /** An accepted input gets two reasons: the keyword sentence, then the
      link sentence. */
  lemma ResponseReasons(input: string)
    requires !Blank(input)
    ensures ClassifyInput(input).Ok?
    ensures var reasons := ClassifyInput(input).value.reasons;
      && |reasons| == 2
      && reasons[0] == (if KeywordMatches(input) != [] then KeywordsFound else NoKeywords)
      && reasons[1] == (if FindLinks(input) != [] then LinksFound else NoLinks)
  {
    AcceptedResponse(input);
  }

  /** The `urls` of an accepted input are its links, in order, each with the
      verdict `"unknown"`, one per counted link; `highlights` is empty. */
  lemma ResponseUrls(input: string)
    requires !Blank(input)
    ensures ClassifyInput(input).Ok?
    ensures var resp := ClassifyInput(input).value;
      && |resp.urls| == ExtractFeatures(input).numLinks
      && (forall i :: 0 <= i < |resp.urls| ==>
            resp.urls[i] == UrlVerdict(FindLinks(input)[i], "unknown") && IsLinkMatch(resp.urls[i].url))
      && resp.highlights == []
  {
    AcceptedResponse(input);
  }
}
