# SvitloInfo — a verified model of the report pipeline, the refresh state and the display choices

SvitloInfo shows, per Ukrainian city, whether the electricity is on, by asking a hosted
generative-AI search for today's outage schedule. This project models the three parts of the
program that hold logic of their own, with the network call abstracted away.

- **The outage report and the news digest** (`services/geminiService.ts`). The answer text
  is split at `---GROUPS_DATA---` into a summary and a block of `GroupId|Status|TimeRange`
  lines. The lines are parsed into groups, and the city-wide status is inferred from keywords
  in the summary. When no line parses, the city's default group layout is filled in. The
  grounding sources are deduplicated by uri and cut to four. A failed call becomes an UNKNOWN
  report. The daily news digest is split at `---WAR---` and `---LOCAL---` into bullet points.
  Modules `GroupTable`, `Sources`, `GeminiService` and `DailyNews`.
- **The refresh state of the app** (`App.tsx`). `App.AppState` is a class with the
  component's state fields. Its methods are `loadData` (also in its two halves around the
  fetch), `loadNews`, the city change, the restore of the stored city, the manual refresh and
  the one-second countdown tick. The countdown display `formatCountdown` and the tick's
  updater are functions. Module `App`.
- **The display choices** (`components/StatusDisplay.tsx`): the source filter, the card
  label, the header text, the short source label, the weather icon and the loading-message
  rotation. Module `StatusDisplay`.

Supporting modules:

- `Wrappers` holds `Option`, `Map` and `Present`, the last being the model of
  `.filter(g => g !== null)`.
- `Types` holds `PowerStatus`, `GroupData`, `OutageInfo`, the source pair and `NewsResult`.
- `Strings` holds the JavaScript string operations the code relies on: `includes`,
  `indexOf`, `split`, `trim` with ECMAScript's whitespace set, `toLowerCase`, `replace`,
  number-to-text and the truncating `%`.

The parsers are checked against reference writers of the formats the prompts ask for. These
are the `Summary … ---GROUPS_DATA--- … GroupId|Status|TimeRange` layout
(services/geminiService.ts:68-71) and the `Summary: … ---WAR--- - … ---LOCAL--- - …` layout
(services/geminiService.ts:244-251). An answer written in the requested format is proved to
be read back exactly. The countdown display is checked the same way: a reader of `m:ss`
clocks recovers every count the display can show.

The network calls are inputs. The outage fetch is an `Outcome`, either an answer (the text
and the grounding chunks) or the caught error `(status, message, text)`. In the state class
the fetch is a function parameter `string -> OutageInfo`. Timestamps (`Date.now()`) are
parameters too.

The group parser of `services/geminiService.ts`, and so the model:
- reads lines of the form `GroupId|Status|TimeRange` without a prefix, optionally between
  markdown table borders;
- keeps identifiers as written;
- keeps duplicate groups;
- does not fill in missing groups one by one, since the whole default layout is used only
  when no line parses;
- keeps the order of the lines.
`NewsResult` is imported from `types.ts` by the code but is not defined in it. Its shape is
taken from the value `fetchDailyNews` returns.

## Model

| member | source | states |
|---|---|---|
| Strings.Contains | services/geminiService.ts:138-146 | `includes`: true exactly when the pattern occurs at some index |
| Strings.JoinSplit | services/geminiService.ts:99 | joining the pieces of `split` with the separator gives back the original text |
| Strings.TrimCutsOnlyWhitespace | services/geminiService.ts:100 | `trim` keeps a slice of the text and removes only whitespace on either side |
| Strings.TrimIdentity | services/geminiService.ts:100 | `trim` leaves a text unchanged exactly when neither end is whitespace, so it is idempotent |
| Strings.ToLowerIdempotent | services/geminiService.ts:136 | lower-casing twice is lower-casing once |
| Strings.JsRem | App.tsx:157 | JavaScript's `%`: the Euclidean remainder for a non-negative dividend, a value in (-b, 0] for a negative one |
| Strings.NatToStringRoundTrip | App.tsx:158 | the decimal text of a number reads back as that number |
| Strings.NatToStringNoLeadingZero | App.tsx:158 | the decimal text of a number has no leading zero unless it is `0` |
| GroupTable.SplitReport | services/geminiService.ts:99-101 | summary and group block are both trimmed |
| GroupTable.NoMarkerNoGroupBlock | services/geminiService.ts:99-101 | without the marker the summary is the trimmed text and the group block is empty |
| GroupTable.SplitReportAtMarker | services/geminiService.ts:99-101 | the summary is the trimmed text before the first marker; the block is the trimmed text after it, up to a second marker if any |
| GroupTable.CleanLine | services/geminiService.ts:109 | the trimmed line with at most one character dropped at each end; a trimmed line without `|` is kept as it is; GroupTable.CleanLineExact says which characters go |
| GroupTable.CleanLineExact | services/geminiService.ts:109 | exactly a leading `|` of the trimmed line and then a trailing `|` of what is left are dropped, nothing else |
| GroupTable.CleanBorderedLine | services/geminiService.ts:109 | a line between two border bars is cleaned to what lies between them |
| GroupTable.LooksLikeHeader | services/geminiService.ts:112-114 | the header and junk test; GroupTable.CleanFormattedNotHeader shows that no well-formed group line is taken for a header |
| GroupTable.CleanFormattedNotHeader | services/geminiService.ts:109-114 | a well-formed group line, once cleaned, is not taken for a header |
| GroupTable.ParseGroupLine | services/geminiService.ts:107-130 | the line parser; GroupTable.GroupLineAccepted states when it yields a group and which one |
| GroupTable.GroupLineAccepted | services/geminiService.ts:107-130 | a line yields a group exactly when, once cleaned, it is no header and its first two `|`-fields are non-empty after trimming; the group is then the trimmed id, the status by exact code match (else UNKNOWN) and the third field or `''` |
| GroupTable.ParsedGroupShape | services/geminiService.ts:107-130 | a parsed group has a non-empty trimmed id and a trimmed description, neither holding `|` |
| GroupTable.LineWithoutBarSkipped | services/geminiService.ts:116-119 | a line without `|` has no status field and yields no group |
| GroupTable.StatusCodeRoundTrip | services/geminiService.ts:121-124 | each status written as its code is read back as that status |
| GroupTable.ParseLines | services/geminiService.ts:107-131 | at most one group per line |
| GroupTable.ParsedGroupsShape | services/geminiService.ts:107-131 | every parsed group has a non-empty id without `|` |
| GroupTable.ParseGroups | services/geminiService.ts:102-131 | an empty block gives no groups; every group has a non-empty id without `|` |
| GroupTable.ParseLinesConcat | services/geminiService.ts:107-131 | each line contributes its own group or nothing, in line order |
| GroupTable.GroupLineRoundTrip | services/geminiService.ts:107-130 | a well-formed group written as `GroupId|Status|TimeRange` is parsed back to itself |
| GroupTable.TableRowRoundTrip | services/geminiService.ts:107-130 | a well-formed group written as a markdown table row `|id|CODE|desc|` is parsed back to itself, also with an empty description |
| GroupTable.GroupLinesRoundTrip | services/geminiService.ts:106-131 | well-formed groups written one per line are parsed back in order |
| GroupTable.SplitAroundMarker | services/geminiService.ts:99-101 | a trimmed summary and block on their own lines around the marker are split back apart |
| GroupTable.ReportRoundTrip | services/geminiService.ts:99-131 | an answer in the requested format yields the summary and the groups it was written with |
| Sources.OrElse | services/geminiService.ts:186-187 | `value || fallback`: the value when present and non-empty, else the fallback |
| Sources.CandidateSources | services/geminiService.ts:184-189 | no more candidates than chunks, none with a missing uri, each one the candidate of one of the chunks |
| Sources.CandidateKept | services/geminiService.ts:184-189 | a chunk with a real uri always yields its candidate, with its title or `Джерело` |
| Sources.FirstSeen | services/geminiService.ts:192-197 | kept entries have pairwise distinct uris and together every uri of the input |
| Sources.FirstSeenKeepsFirsts | services/geminiService.ts:192-197 | every kept entry is the first entry of the input with its uri |
| Sources.FirstSeenPrefix | services/geminiService.ts:192-197 | order of first appearance: what is kept from a prefix is a prefix of what is kept |
| Sources.FirstSeenStep | services/geminiService.ts:193-196 | one more entry is kept exactly when its uri is new |
| Sources.Take | services/geminiService.ts:198 | `slice(0, n)`: a prefix of the list, exactly n long when the list is longer, the whole list otherwise |
| Sources.DedupeByUri | services/geminiService.ts:192-197 | the map-filling loop yields exactly the first-seen entries |
| Sources.ExtractSources | services/geminiService.ts:184-198 | the source pipeline yields the report's sources |
| Sources.ReportSourcesShape | services/geminiService.ts:184-198 | at most four sources, distinct uris, none `#` or empty |
| Sources.AllSourcesCitedWhenFew | services/geminiService.ts:198 | with at most four distinct uris, every one of them is cited |
| Sources.FirstFourCitedWhenMany | services/geminiService.ts:192-198 | with more than four distinct uris, exactly the first four first-seen sources are cited |
| GeminiService.DefaultGroupsForCity | services/geminiService.ts:9-26 | a name mentioning Lviv gives the 12 ids `1.1`…`6.2` in order; any other name gives `1`…`6` |
| GeminiService.DefaultGroupsDistinct | services/geminiService.ts:9-26 | no default layout repeats an id |
| GeminiService.LvivGroupsRefineFlatGroups | services/geminiService.ts:12-25 | Lviv's sub-group k is flat group k/2 followed by `.1` or `.2` |
| GeminiService.GlobalStatus | services/geminiService.ts:135-154 | never UNKNOWN; OFF iff a blackout word and no qualifier; ON iff an all-clear word and not OFF; MAYBE otherwise |
| GeminiService.GlobalStatusIgnoresCase | services/geminiService.ts:136 | the inference does not depend on letter case |
| GeminiService.QualifierRulesOutBlackout | services/geminiService.ts:144-146 | `частково` or `екстрені` anywhere rules out OFF |
| GeminiService.FallbackStatusFollowsGlobal | services/geminiService.ts:161-173 | fallback groups are never UNKNOWN and copy any status the inference produces |
| GeminiService.DefaultGroups | services/geminiService.ts:160-180 | one fallback group per default id |
| GeminiService.FillDefaultGroups | services/geminiService.ts:157-181 | the fallback loop builds the default groups with the fallback status and description, in id order |
| GeminiService.OutageReport | services/geminiService.ts:95-206 | the summary is the text before the marker; the parsed groups are kept unchanged when any line parses, else the city's default layout with the inferred status; the status is the inference on the summary and never UNKNOWN; at least one group; the given timestamp; the sources of the chunks |
| GeminiService.BuildOutageInfo | services/geminiService.ts:95-206 | the body after the call builds the report of the answer |
| GeminiService.ReportStatusKnown | services/geminiService.ts:135-154 | a report built from an answer never says UNKNOWN |
| GeminiService.ReportHasGroups | services/geminiService.ts:157-181 | a report built from an answer always has at least one group |
| GeminiService.ReportSourcesBounded | services/geminiService.ts:184-198 | a report cites at most four sources with distinct, real uris |
| GeminiService.FallbackUsesDefaultLayout | services/geminiService.ts:157-181 | when no line parses, the groups are the city's default ids with the city-wide status |
| GeminiService.NoMarkerMeansDefaultLayout | services/geminiService.ts:99-181 | an answer without the marker gets the default layout and the status of the whole text |
| GeminiService.ReportRoundTrip | services/geminiService.ts:99-154 | an answer in the requested format keeps its summary and groups; the status is read from the summary |
| GeminiService.IsRateLimit | services/geminiService.ts:214 | the outage rate-limit test: status 429, `429` in the message or the error text, or `quota` in the message; GeminiService.ErrorReport picks its text exactly by it |
| GeminiService.ErrorReport | services/geminiService.ts:208-225 | UNKNOWN, no groups, no sources; the rate-limit text exactly for 429 or `quota` |
| GeminiService.FetchOutageInfo | services/geminiService.ts:95-225 | UNKNOWN exactly when the call failed; otherwise the report of the answer |
| DailyNews.CleanPoint | services/geminiService.ts:268 | a cleaned line is trimmed |
| DailyNews.CleanPointOneLine | services/geminiService.ts:268 | cleaning a line never introduces a line break |
| DailyNews.CleanPoints | services/geminiService.ts:267-268 | no more points than lines of the trimmed section |
| DailyNews.CleanPointsShape | services/geminiService.ts:267-268 | every point is non-empty, trimmed and on one line; an empty section has none |
| DailyNews.BulletLineRead | services/geminiService.ts:268 | a `- ` bullet line reads back as its point |
| DailyNews.ReadBulletList | services/geminiService.ts:267-268 | a section holding a bullet list yields exactly its points, in order |
| DailyNews.SummaryLineRead | services/geminiService.ts:271 | `Summary: text` reads back as the text |
| DailyNews.ParseNews | services/geminiService.ts:263-275 | the digest carries the given timestamp |
| DailyNews.NewsPointsShape | services/geminiService.ts:267-273 | every point of a digest is non-empty, trimmed and on one line |
| DailyNews.NoWarMarkerNoPoints | services/geminiService.ts:264-273 | without `---WAR---` the whole text is the summary and both lists are empty |
| DailyNews.NewsRoundTrip | services/geminiService.ts:244-275 | an answer in the requested format is read back as its summary, war points and local points |
| DailyNews.IsNewsRateLimit | services/geminiService.ts:282 | the news rate-limit test: status 429 or `429` in the message or the error text; DailyNews.NewsErrorReport picks its text exactly by it |
| DailyNews.NewsErrorReport | services/geminiService.ts:277-292 | an empty digest; the rate-limit text exactly for a 429 |
| DailyNews.NewsRateLimitNarrower | services/geminiService.ts:282 | the news test is the outage test without the `quota` clause |
| DailyNews.QuotaOnlyCountsForOutages | services/geminiService.ts:282 | a `quota` message without 429 is a rate limit for the report but a plain failure for the digest |
| DailyNews.FetchDailyNews | services/geminiService.ts:263-292 | the digest of the answer, or the error digest |
| App.FindCityIn | App.tsx:90 | `find`: nothing exactly when no city has the id, else a city of the list with that id |
| App.FormatCountdown | App.tsx:154-159 | `--:--` exactly when no countdown is set |
| App.FormatCountdownOf | App.tsx:154-159 | a count shows as its minutes, `:` and the seconds padded below ten |
| App.PaddedSeconds | App.tsx:158 | the seconds field of a count under 60 is two digits reading back as that count |
| App.CountdownRoundTrip | App.tsx:154-159 | every non-negative countdown reads back from its display |
| App.CountdownExamples | App.tsx:154-159 | 1800 shows `30:00`, 65 shows `1:05`, no countdown shows `--:--` |
| App.CountdownStep | App.tsx:135-141 | a reload exactly when a countdown is set and at most 1 |
| App.CountdownStaysInRange | App.tsx:136-140 | an unset countdown stays unset; a countdown in 1..1800 stays in 1..1800 |
| App.ReloadEveryInterval | App.tsx:131-145 | from 1800, n ticks trigger n / 1800 reloads and leave the rest of the interval |
| App.AppState.constructor | App.tsx:54-62 | nothing selected, no data, not loading, no countdown |
| App.AppState.BeginLoad | App.tsx:86-90 | nothing for an empty id; else loading, with the city found for the id |
| App.AppState.CompleteLoad | App.tsx:91-97 | stores a fetched report, stops loading, resets the countdown to 1800 |
| App.AppState.LoadData | App.tsx:86-98 | an empty id changes nothing; else the report of a known city replaces the old one, loading ends, countdown 1800 |
| App.AppState.LoadNews | App.tsx:100-110 | with a city selected, opens the panel and stores its digest; else nothing |
| App.AppState.SelectCity | App.tsx:121-128 | a new non-empty id is stored and loaded, the countdown reset and the digest cleared |
| App.AppState.RestoreSavedCity | App.tsx:113-118 | the stored id is adopted (selected, loaded, countdown reset, digest cleared) exactly when it names a city; otherwise nothing changes; the news panel is left alone |
| App.AppState.HandleRefresh | App.tsx:148-152 | reloads only with a city selected and no load running |
| App.AppState.Tick | App.tsx:134-142 | one countdown step while a city is selected, reloading when it expires |
| StatusDisplay.FilterSources | components/StatusDisplay.tsx:126-131 | shown sources pass the filter and come from the list; every passing source is shown |
| StatusDisplay.FilterAllKeepsEverything | components/StatusDisplay.tsx:127 | ALL shows the list unchanged |
| StatusDisplay.FilterConcat | components/StatusDisplay.tsx:126-131 | filtering keeps the relative order of the sources |
| StatusDisplay.TelegramAndWebPartition | components/StatusDisplay.tsx:128-129 | TELEGRAM and WEB together show every source exactly once |
| StatusDisplay.CardLabel | components/StatusDisplay.tsx:139-151 | `МОЖЛИВІ` exactly for MAYBE and UNKNOWN |
| StatusDisplay.HeaderText | components/StatusDisplay.tsx:172-192 | `ПОМИЛКА` exactly for UNKNOWN, `ГРАФІКИ` exactly for MAYBE |
| StatusDisplay.HeaderFinerThanCard | components/StatusDisplay.tsx:139-192 | the header tells all statuses apart; the card confuses only MAYBE and UNKNOWN |
| StatusDisplay.ErrorHeaderOnlyOnFailure | components/StatusDisplay.tsx:187-192 | `ПОМИЛКА` is shown for error reports and never for reports built from an answer |
| StatusDisplay.StripSchemeAndWww | components/StatusDisplay.tsx:269 | the regex replace removes a prefix of the title |
| StatusDisplay.SourceLabel | components/StatusDisplay.tsx:269 | the title without scheme and `www.`, up to its first `/` (all of it when there is none) |
| StatusDisplay.PlainTitleUnchanged | components/StatusDisplay.tsx:269 | a title without `/` and without `www.` is shown as it is |
| StatusDisplay.LabelOfAddress | components/StatusDisplay.tsx:269 | an `http(s)://[www.]host` title, with or without a path after the host, shows as its host |
| StatusDisplay.WeatherClass | components/StatusDisplay.tsx:57-92 | rain, else snow, else cloud, else sun, each by its two keywords on the lower-cased condition |
| StatusDisplay.WeatherIgnoresCase | components/StatusDisplay.tsx:58 | the icon does not depend on letter case |
| StatusDisplay.NextMessageIndex | components/StatusDisplay.tsx:22 | from any reachable index, the next index is a valid message index |
| StatusDisplay.MessagesRotate | components/StatusDisplay.tsx:16-22 | after n ticks the n mod 4-th message is shown |

## Left out

- The Gemini SDK call, its configuration, the API key and the reading of grounding metadata
  (services/geminiService.ts:5-6, 86-96, 254-261) are a foreign network call. The answer
  text and the chunk list are inputs.
- The prompt texts (services/geminiService.ts:43-84, 236-252) are literal strings around a
  date. Only the answer formats they ask for are modelled, as the reference writers.
- Dates and clocks: `Intl` date formatting and `Date.now()` are host library and clock.
  `lastUpdated` is a parameter.
- `console.error` logging in the catch blocks is left out: it is output only.
- Strings.ToLower maps only ASCII and the basic Cyrillic capitals (U+0400–U+042F, U+0490).
  JavaScript's full Unicode case mapping is not modelled.
- App.AppState.LoadData: the `await` between the two halves is modelled as one atomic step,
  as are `loadNews` and the tick. The stale-fetch race of overlapping loads and the
  scheduling of `setInterval` are not modelled; `BeginLoad` and `CompleteLoad` expose the
  two halves.
- `localStorage` is the field `savedCityId`. The Telegram WebApp calls (App.tsx:65-79),
  the intro and about panels and all rendering (JSX, classes, animations, portals,
  `document.body.style`) are UI.
- App.FormatCountdown is proved for integer counts only. The state never holds anything
  else, and JavaScript's `Math.floor` of a fractional count is not modelled.
- The weather widget's fields (components/StatusDisplay.tsx:223-231) are left out.
  `OutageInfo` has no weather data and nothing produces any; only the icon classifier is
  modelled.
- `components/CitySelector.tsx`, `components/AdBanner.tsx` and `tailwind.config.js` hold UI
  and build configuration only.
- The `CITIES` ids (constants.ts:4-23) are not proved pairwise distinct. The lookups are
  stated for any city list, and the state class keeps the list as a constant field.
- StatusDisplay.LabelOfAddress: stated only for titles that carry a scheme. Without one, a
  host such as `http:` followed by the path `/x` forms the title `http://x`, which is
  labelled `x`. The contract of StatusDisplay.SourceLabel covers every title.
- StatusDisplay.NextMessageIndex: the index bound is stated for indices from -1 up. The
  state only ever holds 0..3.
