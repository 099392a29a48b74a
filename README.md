# Upcycling assistant: verified model of the reply handling

The application identifies a waste item in a photo with a vision-language
model (Gemini), then looks up upcycling tutorials for it on YouTube and shows
them as embedded players. This project models the pure string and list logic
between the network calls and the page:

- `fetchImageAnalysis` (src/utils/Api.js) after each request. A failed
  identification response is reported. A missing reply text defaults to
  `"{}"`. Markdown code fences are stripped and the text is trimmed. The
  parsed `itemName` is checked. The search reply is checked, and each hit is
  mapped to a suggestion.
- `getEmbedUrl` and the `isEmbedLink` test of the video card
  (src/components/VideoCard.jsx). These turn watch URLs and share links into
  embed URLs.
- The payload step of `imageToBase64` (src/utils/ImageUtils.js),
  `reader.result.split(',')[1]`. It takes the data after the comma of a data
  URL (section 3 of RFC 2397).

Everything is pure: datatypes, functions and lemmas.

Modules, one per file:

- `Wrappers`: Option and Result.
- `Text`: the JavaScript white-space set, `trim`, `includes`, and the
  leftmost-match search of a non-global `match`. It also holds the greedy
  run that a negated character class such as `[^&]+` captures.
- `JsonCleanup`: the clean-up expression of Api.js line 58.
- `Analysis`: the response pipeline of `fetchImageAnalysis`.
- `EmbedLinks`: `getEmbedUrl` and `isEmbedLink`.
- `DataUrl`: `split` on a one-character separator, and the payload.

Modelling choices:

- `JSON.parse` is an arbitrary function parameter. Every property holds for
  any parser. `JsonNull` stands for a reply that parses to `null`. Reading
  `null.itemName` throws inside the same `try`, so it gives the parse error.
- Each HTTP round trip is an input. The search reply is a function of the
  item name, because the second request is built from the first result.
- A case-insensitive JavaScript regular expression without the `u` flag
  never folds a non-ASCII character to an ASCII one. So
  `/```json\s*/gi` matches exactly the 16 ASCII spellings of `json`.
- `\s` and `trim` share one white-space set, `Text.IsWhitespace`.

`getEmbedUrl` is not idempotent: `…/watch?v=a?v=b` becomes `…/embed/a?v=b`,
which maps again to `…/embed/b` (`EmbedLinks.NotIdempotent`). It has a fixed
point for ids free of `?`, `&` and `/` (`EmbedLinks.EmbedUrlFixed`). The
search request asks for at most 5 results (`maxResults=5`, Api.js:72), but
the mapping keeps every hit it receives (`Analysis.SuggestionsSpec`).

## Model

| member | source | states |
|---|---|---|
| Text.Trim | src/utils/Api.js:58 | `trim` leaves neither end white space and never lengthens the text |
| Text.TrimPadding | src/utils/Api.js:58 | any white space around a text is removed by `trim` and nothing else changes: trim(w1 + s + w2) == trim(s) |
| Text.TrimTrimmed | src/utils/Api.js:58 | a text with no white space at either end is unchanged by `trim` |
| Text.TrimStartRemovesWhitespace | src/utils/Api.js:58 | the part `\s*` (and the front half of `trim`) removes is all white space |
| Text.TrimEndRemovesWhitespace | src/utils/Api.js:58 | the part the back half of `trim` removes is all white space |
| Text.FirstMatch | src/components/VideoCard.jsx:11 | the chosen match position satisfies the pattern and no earlier position does; no result means no position matches |
| Text.RunUntil | src/components/VideoCard.jsx:11 | the capture is a prefix free of the stop character that ends at the stop character or at the end |
| Text.RunUntilUnique | src/components/VideoCard.jsx:17 | the maximal run free of the stop character is unique, so the captured group is determined |
| JsonCleanup.StartsWithFenceOccurs | src/utils/Api.js:58 | the fence test holds exactly when "```" occurs at the start |
| JsonCleanup.StripFencesLeavesNone | src/utils/Api.js:58 | after `replace(/```/g, "")` no "```" is left; the leading backticks left are the original count modulo 3 |
| JsonCleanup.StripJsonOpenersFenceFree | src/utils/Api.js:58 | the opener removal changes nothing on a text without "```" |
| JsonCleanup.StripFencesFenceFree | src/utils/Api.js:58 | the fence removal changes nothing on a text without "```" |
| JsonCleanup.CleanLeavesNoFence | src/utils/Api.js:58 | the cleaned text contains no "```", whatever the reply |
| JsonCleanup.CleanIdempotent | src/utils/Api.js:58 | cleaning a cleaned text changes nothing |
| JsonCleanup.CleanUnfenced | src/utils/Api.js:58 | a text without backticks is only trimmed |
| JsonCleanup.CleanFenced | src/utils/Api.js:58 | "```" + json (any letter case) + white space + s + white space + "```" cleans to trim(s), the same as s alone, for backtick-free s |
| JsonCleanup.StripJsonOpeners | src/utils/Api.js:58 | `replace(/```json\s*/gi, "")`; no `ensures` of its own; `StripJsonOpenersFenceFree` and `CleanFenced` state it |
| JsonCleanup.StripFences | src/utils/Api.js:58 | `replace(/```/g, "")`; no `ensures` of its own; `StripFencesLeavesNone` and `StripFencesFenceFree` state it |
| JsonCleanup.CleanJsonText | src/utils/Api.js:58 | the whole clean-up expression; no `ensures` of its own; `CleanLeavesNoFence`, `CleanIdempotent`, `CleanUnfenced` and `CleanFenced` state it |
| Analysis.Message | src/utils/Api.js:51-81 | the messages of the five thrown errors; no `ensures` of its own; `GeminiFailureShortCircuits` states the one that carries the body |
| Analysis.ReplyText | src/utils/Api.js:55 | a missing or empty candidate text becomes "{}", and any other text is kept |
| Analysis.IdentifyItem | src/utils/Api.js:60-69 | a parser failure or `null` gives the parse error; an absent or empty `itemName` gives the identification error, in both directions; otherwise the name is returned unchanged |
| Analysis.ShortDescription | src/utils/Api.js:87-89 | the description cut; no `ensures` of its own; `ShortDescriptionSpec` states it |
| Analysis.ShortDescriptionSpec | src/utils/Api.js:87-89 | a non-empty description becomes its prefix of length min(200, length); a missing or empty one becomes "Upcycling tutorial video." |
| Analysis.Suggestion | src/utils/Api.js:85-90 | the object built for one hit; no `ensures` of its own; `SuggestionsSpec` and `SuggestionCardEmbeds` state it |
| Analysis.Suggestions | src/utils/Api.js:84-91 | `ytData.items.map(...)`; no `ensures` of its own; `SuggestionsSpec` states it |
| Analysis.SuggestionsSpec | src/utils/Api.js:84-91 | the mapping keeps length and order, copies title and channel, shortens the description and builds "https://www.youtube.com/embed/" + videoId |
| Analysis.Recommend | src/utils/Api.js:77-81 | a failed search gives "YouTube API failed"; absent or empty items give the no-videos error; otherwise there is one suggestion per hit |
| Analysis.Analyze | src/utils/Api.js:49-97 | the whole response handling; no `ensures` of its own; `GeminiFailureShortCircuits`, `MissingTextIsNotIdentified`, `SameCleanTextSameOutcome`, `FencedReplyAgrees` and `GlassJarExample` state it |
| Analysis.AnalyzeText | src/utils/Api.js:60-97 | the pipeline from the cleaned text on; no `ensures` of its own; `AnalyzeTextSpec` states it |
| Analysis.GeminiFailureShortCircuits | src/utils/Api.js:49-52 | a failed identification response ends the analysis with "Gemini API failed: " + body, whatever the parser and the search do |
| Analysis.AnalyzeTextSpec | src/utils/Api.js:60-97 | every outcome after the clean-up, in pipeline order: parse error, identification error, the two search errors, or the name with the mapped hits |
| Analysis.MissingTextIsNotIdentified | src/utils/Api.js:55-69 | a missing or empty reply text ends in the identification error, not the parse error, when "{}" parses to an object without `itemName` |
| Analysis.SameCleanTextSameOutcome | src/utils/Api.js:58-97 | two non-empty replies that clean to the same text have the same outcome (an empty reply becomes "{}" before the clean-up, so it is excluded) |
| Analysis.FencedReplyAgrees | src/utils/Api.js:58 | a fenced reply ("```" + json in any letter case + white space + s + white space + "```") and the bare text s have the same outcome, for non-empty backtick-free s |
| Analysis.GlassJarExample | src/utils/Api.js:49-97 | a fenced reply naming "glass jar" and a search with three hits give that name and three suggestions in hit order |
| Analysis.SuggestionCardEmbeds | src/components/VideoCard.jsx:33-38 | every suggestion's embed link makes the card embed the player; for a plain id it passes `getEmbedUrl` unchanged |
| EmbedLinks.GetEmbedUrl | src/components/VideoCard.jsx:8 | the result is null exactly when the link is null or empty |
| EmbedLinks.WatchForm | src/components/VideoCard.jsx:11-14 | the leftmost `?v=`/`&v=` followed by a non-`&` decides, whatever follows, and the id is the maximal non-`&` run; the host is not checked |
| EmbedLinks.ShortForm | src/components/VideoCard.jsx:17-20 | with no watch match anywhere, the leftmost "youtu.be/" followed by a non-`?` decides, and the id runs to the first `?` or the end |
| EmbedLinks.PassThrough | src/components/VideoCard.jsx:22-23 | when neither pattern matches, the link is returned unchanged |
| EmbedLinks.EmbedPrefixMarked | src/components/VideoCard.jsx:13 | every link the two branches build contains "youtube.com/embed/" |
| EmbedLinks.IsEmbedLink | src/components/VideoCard.jsx:38 | the embed test; no `ensures` of its own; `EmbedLinkExactly` and `EmbedPrefixMarked` state it |
| EmbedLinks.EmbedLinkExactly | src/components/VideoCard.jsx:38 | `isEmbedLink` holds after `getEmbedUrl` exactly when the link is non-empty and the watch pattern, the short pattern or "youtube.com/embed/" occurs in it |
| EmbedLinks.CanonicalForms | src/components/VideoCard.jsx:7-24 | the watch URL, the share link and the embed URL of an id free of `?`, `&` and `/` all map to the embed URL |
| EmbedLinks.EmbedUrlFixed | src/components/VideoCard.jsx:22-23 | the embed URL of such an id is a fixed point |
| EmbedLinks.NotIdempotent | src/components/VideoCard.jsx:7-24 | a second pass can change a result: `…?v=a?v=b` maps to `…/embed/a?v=b`, which maps to `…/embed/b` |
| DataUrl.Split | src/utils/ImageUtils.js:12 | `split` gives at least one field, no field holds the separator, and joining the fields back gives the input |
| DataUrl.Payload | src/utils/ImageUtils.js:12 | `split(',')[1]`; no `ensures` of its own; `PayloadExistsExactly`, `PayloadAfterFirstComma` and `PayloadOfDataUrl` state it |
| DataUrl.PayloadExistsExactly | src/utils/ImageUtils.js:12 | there is a value exactly when the input has a comma; otherwise it is `undefined` |
| DataUrl.PayloadAfterFirstComma | src/utils/ImageUtils.js:12 | the value is the text from just after the first comma to the second comma or the end, and holds no comma |
| DataUrl.PayloadOfDataUrl | src/utils/ImageUtils.js:10-13 | for "data:" + mime + ";base64," + p, with a comma-free mime and base64 p, the value is exactly p |

## Left out

- src/components/ImageSearch.jsx is not part of this model. It holds React state, camera access, timers and canvas drawing.
- App.jsx, Header.jsx, Hero.jsx, Footer.jsx and LoadingSpinner.jsx hold static markup only.
- The `fetch` calls and the reading of API keys are network and configuration. Each reply is an input, reduced to an ok flag and the fields the code reads.
- `JSON.parse` stays abstract. Only its failure, `null`, and a value whose `itemName` is absent or a string are distinguished. A non-string truthy `itemName`, such as a number, is not modelled.
- The candidate text is assumed to be a string when present. A non-string truthy value at that path is not modelled.
- `encodeURIComponent` and the search URL are not modelled; the search reply is a function of the item name. `encodeURIComponent` at Api.js:72 sits outside the `try` of Api.js:61-67. It throws a URIError ("URI malformed") when `itemName` holds a lone surrogate, which `JSON.parse` produces from an escaped `"\ud800"`. The call then rejects with an error that `AnalysisError` has no case for. This path is not modelled: a Dafny `char` is a Unicode scalar value and cannot hold a lone surrogate.
- `FileReader` and promise resolution or rejection are asynchronous I/O. Only the split is modelled.
- VideoCard rendering is not modelled, including the fallback branch and the `console.log` calls. Only the embed decision of line 38 is.
- `console.error` on a parse failure is not modelled.
- Characters are sequence elements, not UTF-16 code units. `slice(0, 200)` and the regular expressions are modelled over characters.
- `Analysis.SuggestionsSpec`: `id.videoId`, `snippet.title` and `snippet.channelTitle` are modelled as strings that are always present; `snippet.description` is optional and its absence is modelled. A missing `videoId` would make the template literal of Api.js:90 give "…/embed/undefined". A missing `title` or `channelTitle` would be copied as the value `undefined`. A hit with no `snippet` or no `id` object makes `video.snippet.title` or `video.id.videoId` (Api.js:85-90) throw a TypeError, and the call then rejects with an error that `AnalysisError` has no case for. None of these is modelled.
- `EmbedLinks.GetEmbedUrl`: a non-string truthy link is not modelled. `null` and `undefined` are both `None`.
