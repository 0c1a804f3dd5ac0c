# Portfolio site logic, in Dafny

This project models the three pieces of rule-driven logic in a React portfolio site. It proves properties of each.

- **YouTube URL utilities** (`src/utils/youtube.ts`), in `youtube.dfy`:
  - video-ID extraction: three literal markers tried in order, each followed by a greedy capture of `[^&\n?#]+`;
  - the thumbnail URL template;
  - `mm:ss` / `hh:mm:ss` timestamp parsing;
  - the embed URL: five 0/1 flags and optional `start`/`end` in a `URLSearchParams` object, serialized as the application/x-www-form-urlencoded serializer of the WHATWG URL Standard (section 5.2) writes it when nothing needs escaping.
- **The phrase highlighter** (`src/components/HighlightedText.tsx`), in `highlight.dfy`:
  - choose the phrase list;
  - stable sort, longest phrase first;
  - scan each phrase case-insensitively for non-overlapping occurrences;
  - reject occurrences that meet an accepted match;
  - sort matches by start;
  - build alternating plain and highlighted parts.

  The React output is a sequence of `Part(text, highlighted)` values.
- **The journey section's `VideoPlayer` state** (`src/components/JourneySection.tsx`), in `journey.dfy`:
  - a class whose `thumbnailQuality` falls back `maxresdefault → hqdefault → mqdefault → sddefault` on image errors;
  - an `isPlaying` flag set on click;
  - the thumbnail and embed URLs derived from the milestone's link and times.

`text.dfy` defines the JavaScript built-ins the core relies on: `split`, `Number` on digit strings, and `toString` on naturals. `wrappers.dfy` holds `Option`.

`getYouTubeVideoId`'s loop over the patterns, which returns at the first match, is the recursive function `FirstMatch`. The highlighter's loops are methods with loop invariants, each proved against a function that specifies it:
- the `regex.exec` loop (`ScanPhraseLoop` against `ScanPhrase`);
- the `forEach` over phrases (`CollectMatches` against `ScanAll`);
- the two sorts (`SortByKey`, a stable insertion sort, against `StableSortOf`);
- the part-building loop (`BuildParts` against `Segments`).

`HighlightText` composes them. Its postcondition is the predicate `Highlighting`, which ties every stage to its specification function, together with the basic facts about the parts. The other promised properties are lemmas over `Highlighting`.

## Model

| member | source | states |
|---|---|---|
| Text.Split | src/utils/youtube.ts:40 | `split(':')` gives one more piece than there are separators; no piece holds the separator; joining the pieces gives back the string |
| Text.SplitJoin | src/utils/youtube.ts:40 | splitting a join of separator-free pieces gives back exactly those pieces |
| Text.SplitPrefix | src/utils/youtube.ts:40 | a separator-free head followed by the separator is split off as the first piece |
| Text.DigitsValue | src/utils/youtube.ts:40 | `Number` on a decimal digit string, `""` giving 0; `NatToString` and `NatToStringOfDigits` state that it inverts `toString` |
| Text.NatToString | src/utils/youtube.ts:88 | `toString` of a natural is a digit string that reads back as that number, with no leading zero unless the number is 0 |
| Text.NatToStringOfDigits | src/utils/youtube.ts:88 | a digit string without a leading zero is the `toString` of its own value, so the decimal form is unique |
| YouTube.PatternMatch | src/utils/youtube.ts:14-15 | `url.match(pattern)` then `match[1]`: the capture at the marker's leftmost qualifying position, or none; the first-pattern lemmas below use it |
| YouTube.IdRun | src/utils/youtube.ts:8-10 | the capture is the longest prefix made only of characters outside `&`, `?`, `#`, newline |
| YouTube.MarkerIndex | src/utils/youtube.ts:14 | the unanchored match finds the leftmost position where the marker is followed by an ID character, and none exactly when there is no such position |
| YouTube.FirstMatch | src/utils/youtube.ts:13-18 | is empty iff no marker qualifies anywhere; otherwise it is the capture at the leftmost match of the first marker that matches, no earlier marker matching anywhere |
| YouTube.VideoId | src/utils/youtube.ts:6-19 | `getYouTubeVideoId` returns `''` iff none of the three markers, in order watch, youtu.be, embed, is followed by an ID character; otherwise the capture of the first pattern that matches |
| YouTube.VideoIdIsMaximalRun | src/utils/youtube.ts:8-10 | a non-empty ID contains none of `&`, `?`, `#`, newline, and in the URL it is followed by the end of the string or by one of them |
| YouTube.WatchLinkId | src/utils/youtube.ts:8-15 | `https://www.youtube.com/watch?v=<id><rest>` gives `<id>` for any non-empty `id` of characters outside `&`, `?`, `#` and newline, whenever `rest` is empty or starts with a separator |
| YouTube.ShareLinkId | src/utils/youtube.ts:9-16 | `https://youtu.be/<id><rest>` gives `<id>` for an ID of letters, digits, `-` and `_`, when `rest` starts with a separator (or is empty) and contains no `w`: the watch pattern fails and the share pattern decides |
| YouTube.NoWatchInShare | src/utils/youtube.ts:8 | the watch pattern matches nowhere in such a share link, even when the ID contains `w` |
| YouTube.ShareLinkWithWExample | src/utils/youtube.ts:6-19 | `https://youtu.be/gYuMT0itw9g` gives `gYuMT0itw9g` |
| YouTube.WatchAfterHead | src/utils/youtube.ts:8-15 | a watch-marker match wins even when a later pattern's marker occurs earlier in the URL |
| YouTube.PatternOrderExample | src/utils/youtube.ts:13-16 | `https://youtu.be/abc?u=youtube.com/watch?v=xyz` gives `xyz`, not `abc`: pattern order beats position |
| YouTube.WatchWithoutV | src/utils/youtube.ts:8-18 | `youtube.com/watch?` followed by anything but `v` (and no `y`) gives `''` |
| YouTube.FeatureFirstExample | src/utils/youtube.ts:8-18 | `youtube.com/watch?feature=x&v=ID` gives `''` |
| YouTube.NoPatternMatches | src/utils/youtube.ts:13-18 | when no marker qualifies anywhere the result is `''` |
| YouTube.WatchLinkExample | src/utils/youtube.ts:6-19 | the journey link `https://www.youtube.com/watch?v=dFVN-VAesNM` gives `dFVN-VAesNM` |
| YouTube.ShareLinkExample | src/utils/youtube.ts:6-19 | the journey link `https://youtu.be/ou_aBdkTlI8?si=ttPPPvYA8o1_VPFD` gives `ou_aBdkTlI8` |
| YouTube.NotAUrlExample | src/utils/youtube.ts:18 | `not a url` gives `''` |
| YouTube.Thumbnail | src/utils/youtube.ts:27-32 | `getYouTubeThumbnail`, with `maxresdefault` as the default quality; its layout is stated by `ThumbnailLayout` |
| YouTube.ThumbnailLayout | src/utils/youtube.ts:27-32 | the thumbnail URL is `https://img.youtube.com/vi/`, then the ID unchanged (the empty one included), then `/<quality>.jpg` |
| YouTube.ThumbnailQualityDistinct | src/utils/youtube.ts:29-31 | different qualities give different URLs for the same ID |
| YouTube.TimeToSeconds | src/utils/youtube.ts:39-47 | any colon count other than 1 or 2 gives 0 |
| YouTube.MinutesSeconds | src/utils/youtube.ts:40-42 | two digit fields `a:b` give `a*60 + b` |
| YouTube.HoursMinutesSeconds | src/utils/youtube.ts:40-44 | three digit fields `a:b:c` give `a*3600 + b*60 + c` |
| YouTube.ClockRoundTrip | src/utils/youtube.ts:40-42 | `toString(m) + ":" + toString(s)` parses back to `m*60 + s` for all naturals |
| YouTube.TimeExamples | src/utils/youtube.ts:39-47 | `1:20` → 80, `2:13` → 133, `7:53` → 473 |
| YouTube.NoRangeCheck | src/utils/youtube.ts:41-42 | `1:75` → 135: seconds are not range-checked |
| YouTube.EmptyField | src/utils/youtube.ts:40-42 | `:5` → 5: an empty field counts as 0 |
| YouTube.HoursField | src/utils/youtube.ts:43-44 | `1:02:03` → 3723 |
| YouTube.WrongCount | src/utils/youtube.ts:46 | `bad` → 0 |
| YouTube.Serialize | src/utils/youtube.ts:97 | `params.toString()`: the pairs as `name=value` joined by `&`; `QueryRoundTrip` is its inverse |
| YouTube.QueryRoundTrip | src/utils/youtube.ts:77-97 | parsing the serialized query gives back the list of pairs, names and values, in order |
| YouTube.SetParam | src/utils/youtube.ts:86-95 | `params.set` makes the name map to the value, leaves every other name's value alone, and appends when the name was absent |
| YouTube.TimeValue | src/utils/youtube.ts:86-95 | a time value is present iff the option is given; it is a digit string whose value is the option in seconds |
| YouTube.ToSeconds | src/utils/youtube.ts:87-93 | a numeric time as it is, a string through `timeToSeconds`; `TimeValue` states the resulting query value |
| YouTube.Flag | src/utils/youtube.ts:78-82 | a boolean option as `'1'` or `'0'`; `EmbedFlagValues` states the five flag values |
| YouTube.EmbedUrl | src/utils/youtube.ts:55-98 | the step-by-step `URLSearchParams` build gives `https://www.youtube.com/embed/<id>?` plus the serialized reference layout `EmbedParams` |
| YouTube.EmbedQueryParses | src/utils/youtube.ts:77-97 | the embed query string parses back to exactly the embed parameter list |
| YouTube.FlagParams | src/utils/youtube.ts:67-83 | the five flag pairs of the `URLSearchParams` initializer, all of them URL-safe; their names and values are stated by `EmbedFlagValues` |
| YouTube.EmbedFlagValues | src/utils/youtube.ts:67-83 | the first five names are `autoplay`, `controls`, `modestbranding`, `rel`, `enablejsapi`, valued `1`/`0` from the options with defaults off, on, on, off, on |
| YouTube.EmbedTimeValues | src/utils/youtube.ts:85-95 | after the flags come `start` then `end`, each present iff its option is given, with its seconds value; no check that end ≥ start |
| YouTube.AutoplayFlags | src/utils/youtube.ts:67-83 | with only `autoplay: true` the flags are `1, 1, 1, 0, 1` |
| YouTube.EmbedExample | src/utils/youtube.ts:77-95 | start `1:20` and end `2:13` give the query `…&start=80&end=133` |
| Highlight.ChooseHighlights | src/components/HighlightedText.tsx:40 | the supplied list if there is one, else the default list (JavaScript's `||` on an array); its cases are stated by `ChooseHighlightsCases` |
| Highlight.ChooseHighlightsCases | src/components/HighlightedText.tsx:18-40 | a supplied list is used even when empty; only an absent one falls back to the 19 default phrases |
| Highlight.NextOccurrence | src/components/HighlightedText.tsx:51 | one `regex.exec` from `lastIndex`; `NextOccurrenceLeftmost` states what it finds |
| Highlight.NextOccurrenceLeftmost | src/components/HighlightedText.tsx:49-51 | `exec` returns the leftmost case-insensitive literal occurrence at or after `lastIndex`, or null iff there is none |
| Highlight.Overlaps | src/components/HighlightedText.tsx:54-55 | the two-clause test of a candidate against one accepted match; `OverlapsIsIntersection` states that it is range intersection |
| Highlight.OverlapsAny | src/components/HighlightedText.tsx:53-56 | `matches.some(...)` over the accepted matches; `AcceptGood` states that a candidate is rejected iff it meets one of them |
| Highlight.OverlapsIsIntersection | src/components/HighlightedText.tsx:53-56 | the two-clause overlap test is exactly `s < m.end && e > m.start` |
| Highlight.Accept | src/components/HighlightedText.tsx:53-63 | the overlap test and conditional push over the accepted matches; `AcceptGood` states its effect |
| Highlight.AcceptGood | src/components/HighlightedText.tsx:53-63 | the overlap test keeps the matches well formed and pairwise disjoint, only appends, appends the occurrence itself, and rejects iff the occurrence meets an accepted match |
| Highlight.ScanPhrase | src/components/HighlightedText.tsx:49-64 | the outcome of the `exec` loop for one phrase from `lastIndex`, resuming after every occurrence; `ScanPhraseSound` and `ScanPhraseCovers` state its properties |
| Highlight.ScanAll | src/components/HighlightedText.tsx:48-65 | the phrases scanned in turn, each from index 0 with the matches accepted so far; `ScanAllSound` and `ScanAllCovers` state its properties |
| Highlight.ScanPhraseSound | src/components/HighlightedText.tsx:51-64 | scanning one phrase keeps matches disjoint, never drops one, and adds only occurrences of that phrase |
| Highlight.ScanPhraseCovers | src/components/HighlightedText.tsx:51-64 | every occurrence the scan reaches ends up met by an accepted match at least as long as the phrase |
| Highlight.ScanAllCovers | src/components/HighlightedText.tsx:43-65 | with phrases in descending length, every occurrence any phrase's scan reaches is met by an accepted match at least as long as that phrase |
| Highlight.NegLength | src/components/HighlightedText.tsx:43 | the comparator `b.length - a.length` as an ascending key, longest first; `SortByKey` and `Highlighting` state the sort it drives |
| Highlight.StartKey | src/components/HighlightedText.tsx:68 | the comparator `a.start - b.start` as an ascending key; `SortByKey` and `Highlighting` state the sort it drives |
| Highlight.InsertionPoint | src/components/HighlightedText.tsx:68 | finds the position after every element whose key is at most the new key and before the rest |
| Highlight.SortByKey | src/components/HighlightedText.tsx:68 | the result is sorted by key, a permutation of the input, and elements with equal keys keep their input order |
| Highlight.StableSortUnique | src/components/HighlightedText.tsx:68 | a stable sort has exactly one result, whatever algorithm the engine uses |
| Highlight.SortedChain | src/components/HighlightedText.tsx:68-74 | matches that are disjoint and sorted by start are laid out left to right within the text |
| Highlight.Segments | src/components/HighlightedText.tsx:71-95 | the parts built from matches that follow each other: a gap before each match, the match, then the rest; `SegmentsLossless`, `SegmentsHighlights` and `SegmentsShape` state its properties |
| Highlight.SegmentsLossless | src/components/HighlightedText.tsx:71-95 | concatenating the parts reproduces the text from `lastIndex` on |
| Highlight.SegmentsHighlights | src/components/HighlightedText.tsx:80-89 | the highlighted parts are exactly the match texts, in order |
| Highlight.SegmentsShape | src/components/HighlightedText.tsx:76-95 | plain parts are never empty and two plain parts are never adjacent |
| Highlight.BuildParts | src/components/HighlightedText.tsx:71-95 | the build loop produces the reference part layout `Segments` |
| Highlight.ScanPhraseLoop | src/components/HighlightedText.tsx:49-64 | the `while` loop over `exec` produces the reference scan `ScanPhrase` |
| Highlight.ScanStep | src/components/HighlightedText.tsx:51-63 | one iteration moves `lastIndex` strictly forward within the text and leaves the rest of the scan's outcome unchanged |
| Highlight.AcceptOccurrence | src/components/HighlightedText.tsx:53-63 | the `some` test and conditional `push` are the reference overlap test `Accept` |
| Highlight.CollectMatches | src/components/HighlightedText.tsx:48-65 | the `forEach` over sorted phrases produces the reference `ScanAll` |
| Highlight.HighlightText | src/components/HighlightedText.tsx:18-95 | the whole component: phrases stably sorted longest first, matches scanned, stably sorted by start, then laid out as parts; the parts spell the text, with no empty and no two adjacent plain parts |
| Highlight.HighlightingUnique | src/components/HighlightedText.tsx:40-95 | the output is fully determined by the text and the phrase list |
| Highlight.HighlightingDisjoint | src/components/HighlightedText.tsx:53-68 | accepted matches are well formed and pairwise disjoint, and the ordered ones are sorted by start |
| Highlight.HighlightingParts | src/components/HighlightedText.tsx:57-95 | parts concatenate to the text; no plain part is empty; no two plain parts are adjacent; highlighted parts are the phrases of the ordered matches, in order, and each is the text's own slice, in its casing |
| Highlight.HighlightingCovers | src/components/HighlightedText.tsx:43-56 | longer phrases win: every occurrence a phrase's scan reaches is met by an accepted match at least as long |
| Highlight.HighlightingEmpty | src/components/HighlightedText.tsx:93-95 | empty text gives no parts |
| Highlight.HighlightingNoMatch | src/components/HighlightedText.tsx:93-95 | with no occurrence of any phrase, non-empty text is one plain part equal to the text |
| Highlight.HighlightingWhole | src/components/HighlightedText.tsx:49-89 | a text equal up to case to a listed phrase is one highlighted part in its own casing |
| Highlight.DefaultKeepsLongest | src/components/HighlightedText.tsx:25-43 | with the default list, `Entrepreneurship` is one highlighted part and is not split into `entrepreneur` plus `ship` |
| Journey.Rank | src/components/JourneySection.tsx:26-45 | each quality the state can hold has its place in the fallback chain |
| Journey.NextQuality | src/components/JourneySection.tsx:36-45 | the quality after one thumbnail error: the next entry of the chain, or `sddefault` again; `NextQualityStep` states it |
| Journey.NextQualityStep | src/components/JourneySection.tsx:38-44 | an error moves maxres → hq → mq → sd one step; `sddefault` is the only quality an error leaves unchanged |
| Journey.AfterErrorsRank | src/components/JourneySection.tsx:36-45 | `n` errors move `n` steps down the chain, stopping at `sddefault` |
| Journey.FallbackMonotone | src/components/JourneySection.tsx:36-45 | the quality never moves back up |
| Journey.FallbackSettles | src/components/JourneySection.tsx:26-45 | from `maxresdefault`, three errors reach `sddefault` and it stays there; fewer do not reach it |
| Journey.PlayerOptions | src/components/JourneySection.tsx:30-34 | the options object the player passes is well formed whenever its times are readable |
| Journey.PlayerEmbedParams | src/components/JourneySection.tsx:30-34 | the player's query has `autoplay=1` and the other flags at their defaults, then `start`/`end` exactly when the milestone gives them, as `timeToSeconds` of its strings |
| Journey.ClipPlayerParams | src/components/JourneySection.tsx:30-34 | the `1:20`–`2:13` milestone embeds with `autoplay=1…&start=80&end=133` |
| Journey.VideoPlayer.constructor | src/components/JourneySection.tsx:19-26 | a new player shows `maxresdefault` and is not playing |
| Journey.VideoPlayer.ThumbnailUrl | src/components/JourneySection.tsx:27-28 | the displayed thumbnail is the video's thumbnail at the quality reached from `maxresdefault` after the errors seen |
| Journey.VideoPlayer.HandleThumbnailError | src/components/JourneySection.tsx:36-45 | one step down the fallback chain, nothing at `sddefault`; the play flag is unchanged |
| Journey.VideoPlayer.Play | src/components/JourneySection.tsx:64 | the click sets `isPlaying` and leaves the quality alone |
| Journey.VideoPlayer.EmbedUrl | src/components/JourneySection.tsx:27-34 | the iframe source is the embed URL of the link's ID with the player's options, for readable time strings |
| Journey.ValidQuality | src/components/JourneySection.tsx:26-45 | the quality of a player is the one `maxresdefault` falls back to after the errors it has handled, so it is never `default` |
| Journey.Deliver | src/components/JourneySection.tsx:64-73 | an image error goes to `handleThumbnailError`, a click sets `isPlaying`; the error count and the play flag change accordingly |
| Journey.Run | src/components/JourneySection.tsx:25-64 | after any sequence of errors and clicks, the quality is the fallback after the errors; the player plays iff it already did or some event was a click |

## Left out

- JSX, styling, animation and React rendering: the model stops at the part sequence, the URLs and the two state fields.
- `Number()` beyond decimal digit strings (NaN, whitespace, signs, decimals, hex, exponents). `YouTube.TimeToSeconds` requires digit fields whenever the colon count picks the two- or three-field branch. Every other string maps to 0, as in the source.
- The `i` flag's Unicode case folding: only ASCII letters are folded.
- Highlight.HighlightText: strings are sequences of Unicode scalar values, while JavaScript's `length`, `index` and `substring` count UTF-16 code units. Phrases or text with characters outside the Basic Multilingual Plane can therefore sort and match differently in the source. For example, with phrases `😀a` and `abc` on text `😀abc`, the source highlights `😀a` and the model highlights `abc`.
- Empty phrases: with an empty pattern `exec` never advances and the source's loop does not end. `Highlight.HighlightText` requires every phrase to be non-empty.
- The engine's sort algorithm: both sorts are the stable insertion sort `Highlight.SortByKey`. `Highlight.StableSortUnique` shows any stable sort gives the same result.
- The sorts work on sequences rather than in place on the JavaScript arrays. The model tracks no aliasing of the `matches` array.
- `Highlight.HighlightText` returns parts, not React nodes; the `key` and `highlightColor` props are not modelled.
- URLSearchParams percent-encoding: `YouTube.Serialize` covers unreserved characters only. Every name and value it serializes (flags and naturals) is one. The video ID goes into the path unescaped, as in the source.
- Text.NatToString: numbers are exact naturals, not IEEE doubles. JavaScript's `toString` writes values of 10^21 and up in exponent form (`1e+21`), and `Number` rounds digit strings above 2^53. Neither is modelled, so `YouTube.TimeToSeconds`, `YouTube.ToSeconds` and the embed query are exact for all inputs, where the source loses precision or writes exponent form.
- Text.NatToStringOfDigits: holds of exact naturals. In the source, `toString(Number(s))` differs from `s` once the value passes 2^53 or reaches 10^21.
- `YouTube.EmbedUrl`: numeric `start`/`end` are naturals. Negative or fractional seconds, which `toString` would print with `-` or `.`, are not modelled.
- `Journey.VideoPlayer`: `title` and hover animation are presentation and not modelled. The props are constants, matching one render of the component. The thumbnail and play state holds for any time strings.
- Journey.VideoPlayer.EmbedUrl: requires its time strings to be readable timestamps, following the `Number()` restriction above.
- `Journey.VideoPlayer.ThumbnailUrl`: the DOM's image loading is left out. An `onError` event is a call to `HandleThumbnailError`.
- `src/components/YouTubeVideo.tsx`, the scroll and Lenis hooks, the splash screen, navigation, routing and the static data are not part of this model. The journey data supplies only the example links and times.
