/** The response handling of `fetchImageAnalysis` (src/utils/Api.js:49-97),
    as a pure pipeline. The two HTTP round trips are inputs: the reply of the
    identification (Gemini) endpoint, and the search (YouTube) reply as a
    function of the identified item name, since the second request is built
    from the first one's result. `JSON.parse` is an arbitrary function
    parameter, so every property below holds whatever the parser does. */
module Analysis {
  import opened Wrappers
  import opened Text
  import opened JsonCleanup
  import EmbedLinks

  /** The identification endpoint's reply: a failed response and its body
      text, or a successful one with the text of the first part of the first
      candidate when that chain of fields is present. */
  datatype GeminiReply =
    | GeminiNotOk(body: string)
    | GeminiOk(candidateText: Option<string>)

  /** What `JSON.parse` returns, as far as `parsed.itemName` can tell: the
      value `null`, on which reading a property throws, or any other value,
      whose `itemName` property is absent or a string. */
  datatype ParsedJson =
    | JsonNull
    | JsonValue(itemName: Option<string>)

  /** A `JSON.parse` stand-in: `None` when it throws. */
  type JsonParser = string -> Option<ParsedJson>

  /** One search hit: `id.videoId` and the `snippet` fields the mapping
      reads; the description may be absent. */
  datatype SearchHit = SearchHit(
    videoId: string,
    title: string,
    channelTitle: string,
    description: Option<string>)

  /** The search endpoint's reply: a failed response, or a successful one
      whose `items` array may be absent. */
  datatype YouTubeReply =
    | YouTubeNotOk
    | YouTubeOk(items: Option<seq<SearchHit>>)

  datatype VideoSuggestion = VideoSuggestion(
    title: string,
    channel: string,
    description: string,
    embedUrl: string)

  datatype AnalysisResult = AnalysisResult(
    itemName: string,
    videoSuggestions: seq<VideoSuggestion>)

  /** The five ways the pipeline throws. */
  datatype AnalysisError =
    | GeminiFailed(body: string)
    | UnparsableReply
    | ItemNotIdentified
    | YouTubeFailed
    | NoVideosFound

  /** The message of the `Error` each failure throws. */
  function Message(e: AnalysisError): string
  {
    match e
    case GeminiFailed(body) => "Gemini API failed: " + body
    case UnparsableReply => "Failed to parse Gemini JSON response."
    case ItemNotIdentified => "Could not identify the waste item."
    case YouTubeFailed => "YouTube API failed"
    case NoVideosFound => "No YouTube videos found for this item."
  }

  const DefaultReplyText := "{}"
  const PlaceholderDescription := "Upcycling tutorial video."
  const DescriptionLimit := 200

  /** `...?.text || "{}"`: an absent or empty candidate text is replaced by an
      empty JSON object. */
  function ReplyText(candidate: Option<string>): (r: string)
    ensures r != []
    ensures candidate.Some? && candidate.value != [] ==> r == candidate.value
    ensures candidate.None? || candidate.value == [] ==> r == DefaultReplyText
  {
    if candidate.Some? && candidate.value != [] then candidate.value else DefaultReplyText
  }

  /** Lines 60-69: parse the cleaned text and read `itemName`, which must be
      truthy (a non-empty string). */
  function IdentifyItem(text: string, parse: JsonParser): (r: Result<string, AnalysisError>)
    ensures parse(text).None? ==> r == Failure(UnparsableReply)
    ensures parse(text) == Some(JsonNull) ==> r == Failure(UnparsableReply)
    ensures r == Failure(ItemNotIdentified) <==>
              parse(text) == Some(JsonValue(None)) || parse(text) == Some(JsonValue(Some([])))
    ensures r.Success? <==>
              exists name :: name != [] && parse(text) == Some(JsonValue(Some(name)))
    ensures r.Success? ==> r.value != [] && parse(text) == Some(JsonValue(Some(r.value)))
  {
    match parse(text)
    case None => Failure(UnparsableReply)
    case Some(JsonNull) => Failure(UnparsableReply)
    case Some(JsonValue(name)) =>
      if name.None? || name.value == [] then Failure(ItemNotIdentified)
      else Success(name.value)
  }

  /** `description ? description.slice(0, 200) : "Upcycling tutorial video."` */
  function ShortDescription(description: Option<string>): (r: string)
  {
    if description.Some? && description.value != [] then
      var d := description.value;
      if |d| <= DescriptionLimit then d else d[..DescriptionLimit]
    else PlaceholderDescription
  }

  /** The description kept for a suggestion is the original's prefix of
      length min(200, length), or the placeholder when there is none. */
  lemma ShortDescriptionSpec(description: Option<string>)
    ensures description.Some? && description.value != [] ==>
      var d := description.value;
      var r := ShortDescription(description);
      |r| == (if |d| < DescriptionLimit then |d| else DescriptionLimit) && r == d[..|r|]
    ensures description.None? || description.value == [] ==>
      ShortDescription(description) == PlaceholderDescription
    ensures |ShortDescription(description)| <= DescriptionLimit
  {
  }

  /** The object literal built for one hit (lines 85-90). */
  function Suggestion(hit: SearchHit): VideoSuggestion
  {
    VideoSuggestion(
      hit.title,
      hit.channelTitle,
      ShortDescription(hit.description),
      EmbedLinks.EmbedPrefix + hit.videoId)
  }

  /** `ytData.items.map(...)`. */
  function Suggestions(items: seq<SearchHit>): seq<VideoSuggestion>
  {
    if items == [] then [] else [Suggestion(items[0])] + Suggestions(items[1..])
  }

  /** The mapping keeps length and order, copies title and channel verbatim,
      shortens the description and builds the embed link from the video id.
      Nothing caps the number of suggestions: all hits are mapped. */
  lemma {:induction false} SuggestionsSpec(items: seq<SearchHit>)
    ensures |Suggestions(items)| == |items|
    ensures forall i :: 0 <= i < |items| ==>
      && Suggestions(items)[i].title == items[i].title
      && Suggestions(items)[i].channel == items[i].channelTitle
      && Suggestions(items)[i].description == ShortDescription(items[i].description)
      && Suggestions(items)[i].embedUrl == EmbedLinks.EmbedPrefix + items[i].videoId
  {
    if items != [] {
      SuggestionsSpec(items[1..]);
      assert forall i :: 1 <= i < |items| ==> Suggestions(items)[i] == Suggestions(items[1..])[i - 1];
    }
  }

  /** Lines 77-91: the checks on the search reply and the mapping. */
  function Recommend(reply: YouTubeReply): (r: Result<seq<VideoSuggestion>, AnalysisError>)
    ensures reply.YouTubeNotOk? ==> r == Failure(YouTubeFailed)
    ensures reply.YouTubeOk? && (reply.items.None? || reply.items.value == []) ==>
              r == Failure(NoVideosFound)
    ensures r.Success? <==> reply.YouTubeOk? && reply.items.Some? && reply.items.value != []
    ensures r.Success? ==> |r.value| == |reply.items.value| > 0
  {
    match reply
    case YouTubeNotOk => Failure(YouTubeFailed)
    case YouTubeOk(items) =>
      if items.None? || items.value == [] then Failure(NoVideosFound)
      else
        SuggestionsSpec(items.value);
        Success(Suggestions(items.value))
  }

  /** `fetchImageAnalysis` after its requests: the first failure ends the
      pipeline; otherwise the identified name and the mapped hits. */
  function Analyze(gemini: GeminiReply, parse: JsonParser, search: string -> YouTubeReply)
    : Result<AnalysisResult, AnalysisError>
  {
    match gemini
    case GeminiNotOk(body) => Failure(GeminiFailed(body))
    case GeminiOk(candidate) => AnalyzeText(CleanJsonText(ReplyText(candidate)), parse, search)
  }

  /** Lines 60-97, from the cleaned reply text on. */
  function AnalyzeText(text: string, parse: JsonParser, search: string -> YouTubeReply)
    : Result<AnalysisResult, AnalysisError>
  {
    match IdentifyItem(text, parse)
    case Failure(e) => Failure(e)
    case Success(name) =>
      match Recommend(search(name))
      case Failure(e) => Failure(e)
      case Success(videos) => Success(AnalysisResult(name, videos))
  }

  /** A failed identification response ends the analysis with its body in
      the message, whatever the parser and the search would have done. */
  lemma GeminiFailureShortCircuits(body: string, parse: JsonParser, search: string -> YouTubeReply)
    ensures Analyze(GeminiNotOk(body), parse, search) == Failure(GeminiFailed(body))
    ensures Message(GeminiFailed(body)) == "Gemini API failed: " + body
  {
  }

  /** Every outcome once the reply text is cleaned, in pipeline order: the
      parse failures, the missing item name, the two search failures, and
      otherwise the name with one suggestion per hit. */
  lemma AnalyzeTextSpec(text: string, parse: JsonParser, search: string -> YouTubeReply)
    ensures parse(text).None? || parse(text) == Some(JsonNull) ==>
              AnalyzeText(text, parse, search) == Failure(UnparsableReply)
    ensures parse(text) == Some(JsonValue(None)) || parse(text) == Some(JsonValue(Some([]))) ==>
              AnalyzeText(text, parse, search) == Failure(ItemNotIdentified)
    ensures forall name :: name != [] && parse(text) == Some(JsonValue(Some(name))) ==>
              && (search(name).YouTubeNotOk? ==> AnalyzeText(text, parse, search) == Failure(YouTubeFailed))
              && (search(name).YouTubeOk? && (search(name).items.None? || search(name).items.value == []) ==>
                    AnalyzeText(text, parse, search) == Failure(NoVideosFound))
              && (search(name).YouTubeOk? && search(name).items.Some? && search(name).items.value != [] ==>
                    AnalyzeText(text, parse, search) == Success(AnalysisResult(name, Suggestions(search(name).items.value))))
  {
  }

  /** The text "{}" passes the clean-up unchanged. */
  lemma DefaultReplyTextIsClean()
    ensures CleanJsonText(DefaultReplyText) == DefaultReplyText
  {
    CleanUnfenced(DefaultReplyText);
    assert Trimmed(DefaultReplyText);
    TrimTrimmed(DefaultReplyText);
  }

  /** A missing or empty candidate text becomes "{}", which the clean-up
      leaves alone; since `JSON.parse("{}")` is an object without `itemName`,
      the analysis fails with the identification error, not the parse
      error. */
  lemma MissingTextIsNotIdentified(candidate: Option<string>, parse: JsonParser, search: string -> YouTubeReply)
    requires candidate.None? || candidate.value == []
    requires parse(DefaultReplyText) == Some(JsonValue(None))
    ensures ReplyText(candidate) == DefaultReplyText
    ensures Analyze(GeminiOk(candidate), parse, search) == Failure(ItemNotIdentified)
  {
    DefaultReplyTextIsClean();
    NoNameNotIdentified(CleanJsonText(DefaultReplyText), parse, search);
  }

  lemma NoNameNotIdentified(text: string, parse: JsonParser, search: string -> YouTubeReply)
    requires parse(text) == Some(JsonValue(None))
    ensures AnalyzeText(text, parse, search) == Failure(ItemNotIdentified)
  {
  }

  /** Two non-empty replies that clean to the same text have the same
      outcome. */
  lemma SameCleanTextSameOutcome(a: string, b: string, parse: JsonParser, search: string -> YouTubeReply)
    requires a != [] && b != []
    requires CleanJsonText(a) == CleanJsonText(b)
    ensures Analyze(GeminiOk(Some(a)), parse, search) == Analyze(GeminiOk(Some(b)), parse, search)
  {
    assert ReplyText(Some(a)) == a && ReplyText(Some(b)) == b;
  }

  /** A fenced reply and the bare JSON lead to the same outcome. */
  lemma FencedReplyAgrees(tag: string, w1: string, json: string, w2: string,
                          parse: JsonParser, search: string -> YouTubeReply)
    requires IsJsonTag(tag)
    requires AllWhitespace(w1) && AllWhitespace(w2)
    requires '`' !in json && json != []
    ensures Analyze(GeminiOk(Some(Fence + tag + w1 + json + w2 + Fence)), parse, search)
         == Analyze(GeminiOk(Some(json)), parse, search)
  {
    CleanFenced(tag, w1, json, w2);
    SameCleanTextSameOutcome(Fence + tag + w1 + json + w2 + Fence, json, parse, search);
  }

  /** An end-to-end example: a fenced reply naming "glass jar" and a search
      returning three hits give that name and three suggestions in the
      order of the hits. */
  lemma GlassJarExample(parse: JsonParser, search: string -> YouTubeReply, hits: seq<SearchHit>)
    requires parse("{\"itemName\": \"glass jar\"}") == Some(JsonValue(Some("glass jar")))
    requires search("glass jar") == YouTubeOk(Some(hits))
    requires |hits| == 3
    ensures
      var r := Analyze(GeminiOk(Some("```json\n" + "{\"itemName\": \"glass jar\"}" + "\n```")), parse, search);
      && r.Success?
      && r.value.itemName == "glass jar"
      && |r.value.videoSuggestions| == 3
      && forall i :: 0 <= i < 3 ==> r.value.videoSuggestions[i] == Suggestion(hits[i])
  {
    var json := "{\"itemName\": \"glass jar\"}";
    GlassJarCleans("```json\n", json, "\n```");
    SuggestionsSpec(hits);
    AnalyzeTextSpec(json, parse, search);
  }

  /** The clean-up step of the example. The literals come in as parameters
      fixed by `requires` so that the solver reasons about them as opaque
      values joined by `+`; with the literals written inline it spends its
      resources unfolding the clean-up over the characters. */
  lemma GlassJarCleans(opener: string, json: string, closer: string)
    requires opener == "```json\n" && closer == "\n```"
    requires json == "{\"itemName\": \"glass jar\"}"
    ensures CleanJsonText(opener + json + closer) == json
  {
    assert opener == Fence + "json" + "\n";
    assert closer == "\n" + Fence;
    assert opener + json + closer == Fence + "json" + "\n" + json + "\n" + Fence;
    GlassJarBodyCleans(json);
  }

  /** The fenced JSON of the example cleans to the bare JSON. */
  lemma GlassJarBodyCleans(json: string)
    requires json == "{\"itemName\": \"glass jar\"}"
    ensures CleanJsonText(Fence + "json" + "\n" + json + "\n" + Fence) == json
  {
    assert AllWhitespace("\n");
    CleanFenced("json", "\n", json, "\n");
    assert Trimmed(json);
    TrimTrimmed(json);
  }

  /** The page hands each suggestion's `embedUrl` to a video card as its
      link. The card always embeds the player, and for a plain video id the
      link comes through `getEmbedUrl` unchanged. */
  lemma SuggestionCardEmbeds(hit: SearchHit)
    ensures EmbedLinks.IsEmbedLink(EmbedLinks.GetEmbedUrl(Some(Suggestion(hit).embedUrl)))
    ensures EmbedLinks.PlainId(hit.videoId) ==>
              EmbedLinks.GetEmbedUrl(Some(Suggestion(hit).embedUrl)) == Some(Suggestion(hit).embedUrl)
  {
    var link := Suggestion(hit).embedUrl;
    EmbedLinks.EmbedPrefixMarked(hit.videoId);
    EmbedLinks.EmbedLinkExactly(Some(link));
    if EmbedLinks.PlainId(hit.videoId) {
      EmbedLinks.EmbedUrlFixed(hit.videoId);
    }
  }
}
