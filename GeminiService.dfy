/**
 * `fetchOutageInfo` (services/geminiService.ts): from the search model's answer to the
 * report a city screen shows. The default group layout per city, the city-wide status
 * inferred from keywords, the fallback groups, the assembly of the report, and the error
 * path that replaces it when the call fails.
 *
 * The network call itself is not modelled: its answer (text and grounding chunks) or its
 * failure is an input, and so is the clock reading stored in `lastUpdated`.
 */
module GeminiService {
  import opened Wrappers
  import opened Strings
  import opened Types
  import opened GroupTable
  import opened Sources

  // ---------------------------------------------------------------------------
  // Default group layout per city

  /** The city names that use Lviv's twelve sub-groups (the lower-cased name mentions Lviv). */
  predicate IsLviv(cityName: string) {
    Contains(ToLower(cityName), "львів") || Contains(ToLower(cityName), "lviv")
  }

  /**
   * getDefaultGroupsForCity: Lviv has the sub-groups 1.1, 1.2, ..., 6.2 in that order,
   * every other city the groups 1..6.
   */
  function DefaultGroupsForCity(cityName: string): (ids: seq<string>)
    ensures IsLviv(cityName) ==>
              |ids| == 12 && forall k :: 0 <= k < 12 ==> ids[k] == [Digit(k / 2 + 1), '.', Digit(k % 2 + 1)]
    ensures !IsLviv(cityName) ==>
              |ids| == 6 && forall k :: 0 <= k < 6 ==> ids[k] == [Digit(k + 1)]
  {
    if IsLviv(cityName) then
      ["1.1", "1.2", "2.1", "2.2", "3.1", "3.2", "4.1", "4.2", "5.1", "5.2", "6.1", "6.2"]
    else
      ["1", "2", "3", "4", "5", "6"]
  }

  /** No default layout names a group twice. */
  lemma DefaultGroupsDistinct(cityName: string)
    ensures var ids := DefaultGroupsForCity(cityName);
            forall a, b :: 0 <= a < b < |ids| ==> ids[a] != ids[b]
  {
    var ids := DefaultGroupsForCity(cityName);
    forall a, b | 0 <= a < b < |ids| ensures ids[a] != ids[b] {
      if IsLviv(cityName) {
        assert ids[a][0] != ids[b][0] || ids[a][2] != ids[b][2];
      } else {
        assert ids[a][0] != ids[b][0];
      }
    }
  }

  /** Lviv's sub-groups refine the flat layout: sub-group k is flat group k/2 followed by ".1" or ".2". */
  lemma LvivGroupsRefineFlatGroups(lviv: string, other: string)
    requires IsLviv(lviv) && !IsLviv(other)
    ensures forall k :: 0 <= k < 12 ==>
              DefaultGroupsForCity(lviv)[k] == DefaultGroupsForCity(other)[k / 2] + "." + [Digit(k % 2 + 1)]
  {
  }

  // ---------------------------------------------------------------------------
  // City-wide status

  const AllClearWords: seq<string> :=
    ["скасовано", "світло є у всіх", "графіки не застосовуються", "не діють", "відключень не передбачається"]
  const BlackoutWords: seq<string> := ["блекаут", "знеструмлено все місто"]
  const QualifierWords: seq<string> := ["частково", "екстрені"]

  predicate MentionsAny(text: string, words: seq<string>) {
    exists k :: 0 <= k < |words| && Contains(text, words[k])
  }

  /** The lower-cased summary announces that the schedules are lifted. */
  predicate IsTotalOn(summary: string) {
    MentionsAny(ToLower(summary), AllClearWords)
  }

  /** The lower-cased summary announces a blackout that is not qualified as partial or emergency-only. */
  predicate IsTotalOff(summary: string) {
    MentionsAny(ToLower(summary), BlackoutWords) && !MentionsAny(ToLower(summary), QualifierWords)
  }

  /** The city-wide status: a blackout beats an all-clear, and without either the status is MAYBE. */
  function GlobalStatus(summary: string): (r: PowerStatus)
    ensures r != UNKNOWN
    ensures r == OFF <==> IsTotalOff(summary)
    ensures r == ON <==> IsTotalOn(summary) && !IsTotalOff(summary)
    ensures r == MAYBE <==> !IsTotalOn(summary) && !IsTotalOff(summary)
  {
    if IsTotalOff(summary) then OFF
    else if IsTotalOn(summary) then ON
    else MAYBE
  }

  /** The inference ignores letter case: lower-casing the summary first changes nothing. */
  lemma GlobalStatusIgnoresCase(summary: string)
    ensures GlobalStatus(ToLower(summary)) == GlobalStatus(summary)
  {
    ToLowerIdempotent(summary);
  }

  /** A qualifier word anywhere in a summary rules out OFF. */
  lemma QualifierRulesOutBlackout(before: string, k: nat, after: string)
    requires k < |QualifierWords|
    ensures GlobalStatus(before + QualifierWords[k] + after) != OFF
  {
    var w := QualifierWords[k];
    ToLowerConcat(before + w, after);
    ToLowerConcat(before, w);
    ToLowerFixed(w);
    assert Contains(w, w) by {
      ContainsAppended([], w);
      assert [] + w == w;
    }
    ContainsInside(ToLower(before), w, ToLower(after), w);
    assert ToLower(before + w + after) == ToLower(before) + w + ToLower(after);
  }

  // ---------------------------------------------------------------------------
  // Fallback groups

  function FallbackStatus(global: PowerStatus): PowerStatus {
    if global == ON then ON else if global == OFF then OFF else MAYBE
  }

  function FallbackDescription(global: PowerStatus): string {
    if global == ON then "Світло є" else if global == OFF then "Аварійне відключення" else "Див. джерело"
  }

  /** Fallback groups never carry UNKNOWN, and they copy every status the inference can produce. */
  lemma FallbackStatusFollowsGlobal(global: PowerStatus)
    ensures FallbackStatus(global) != UNKNOWN
    ensures global != UNKNOWN ==> FallbackStatus(global) == global
  {
  }

  /** The fallback list as a value: one group per id, in order, all with the fallback status. */
  function DefaultGroups(ids: seq<string>, global: PowerStatus): (groups: seq<GroupData>)
    ensures |groups| == |ids|
  {
    seq(|ids|, k requires 0 <= k < |ids| => GroupData(ids[k], FallbackStatus(global), FallbackDescription(global)))
  }

  /** The loop that fills an empty group list with the city's default ids. */
  method FillDefaultGroups(ids: seq<string>, global: PowerStatus) returns (groups: seq<GroupData>)
    ensures groups == DefaultGroups(ids, global)
  {
    groups := [];
    for i := 0 to |ids|
      invariant |groups| == i
      invariant forall k :: 0 <= k < i ==>
                  groups[k] == GroupData(ids[k], FallbackStatus(global), FallbackDescription(global))
    {
      var groupStatus := UNKNOWN;
      var groupDesc := "Невідомо";
      if global == ON {
        groupStatus := ON;
        groupDesc := "Світло є";
      } else if global == OFF {
        groupStatus := OFF;
        groupDesc := "Аварійне відключення";
      } else {
        groupStatus := MAYBE;
        groupDesc := "Див. джерело";
      }
      groups := groups + [GroupData(ids[i], groupStatus, groupDesc)];
    }
  }

  // ---------------------------------------------------------------------------
  // The report

  /** The model's answer: its text (possibly missing) and its grounding chunks. */
  datatype AiResponse = AiResponse(text: Option<string>, chunks: seq<GroundingChunk>)

  /** The report built from an answer, as a value (the specification of BuildOutageInfo). */
  function OutageReport(cityName: string, response: AiResponse, lastUpdated: int): (r: OutageInfo)
    ensures r.status == GlobalStatus(r.summary) && r.status != UNKNOWN
    ensures |r.groups| >= 1 && r.lastUpdated == lastUpdated && r.sources == ReportSources(response.chunks)
    ensures var parts := SplitReport(OrElse(response.text, ""));
            && r.summary == parts.summary
            && (ParseGroups(parts.groupBlock) != [] ==> r.groups == ParseGroups(parts.groupBlock))
            && (ParseGroups(parts.groupBlock) == [] ==> r.groups == DefaultGroups(DefaultGroupsForCity(cityName), r.status))
  {
    var parts := SplitReport(OrElse(response.text, ""));
    var parsed := ParseGroups(parts.groupBlock);
    var global := GlobalStatus(parts.summary);
    var groups := if parsed == [] then DefaultGroups(DefaultGroupsForCity(cityName), global) else parsed;
    assert |DefaultGroupsForCity(cityName)| >= 6;
    OutageInfo(global, parts.summary, groups, lastUpdated, ReportSources(response.chunks))
  }

  /** The body of `fetchOutageInfo` after the network call returned. */
  method BuildOutageInfo(cityName: string, response: AiResponse, lastUpdated: int) returns (info: OutageInfo)
    ensures info == OutageReport(cityName, response, lastUpdated)
  {
    var fullText := OrElse(response.text, "");
    var parts := SplitReport(fullText);
    var groups := ParseGroups(parts.groupBlock);
    var globalStatus := GlobalStatus(parts.summary);
    if |groups| == 0 {
      groups := FillDefaultGroups(DefaultGroupsForCity(cityName), globalStatus);
    }
    var uniqueSources := ExtractSources(response.chunks);
    info := OutageInfo(globalStatus, parts.summary, groups, lastUpdated, uniqueSources);
  }

  /** A report built from an answer never says UNKNOWN: that status is reserved for failures. */
  lemma ReportStatusKnown(cityName: string, response: AiResponse, lastUpdated: int)
    ensures OutageReport(cityName, response, lastUpdated).status != UNKNOWN
  {
  }

  /** A report built from an answer always shows at least one group. */
  lemma ReportHasGroups(cityName: string, response: AiResponse, lastUpdated: int)
    ensures |OutageReport(cityName, response, lastUpdated).groups| >= 1
  {
    var parts := SplitReport(OrElse(response.text, ""));
    if ParseGroups(parts.groupBlock) == [] {
      assert |DefaultGroupsForCity(cityName)| >= 6;
    }
  }

  /** A report cites at most four sources, under distinct uris, none of them missing. */
  lemma ReportSourcesBounded(cityName: string, response: AiResponse, lastUpdated: int)
    ensures var sources := OutageReport(cityName, response, lastUpdated).sources;
            && |sources| <= MaxSources
            && (forall a, b :: 0 <= a < b < |sources| ==> sources[a].uri != sources[b].uri)
            && (forall k :: 0 <= k < |sources| ==> sources[k].uri != MissingUri)
  {
    ReportSourcesShape(response.chunks);
  }

  /** When no line parses, the groups are the city's default ids, all with the city-wide status. */
  lemma FallbackUsesDefaultLayout(cityName: string, response: AiResponse, lastUpdated: int)
    requires ParseGroups(SplitReport(OrElse(response.text, "")).groupBlock) == []
    ensures var info := OutageReport(cityName, response, lastUpdated);
            var ids := DefaultGroupsForCity(cityName);
            && |info.groups| == |ids|
            && forall k :: 0 <= k < |ids| ==>
                 info.groups[k].id == ids[k] && info.groups[k].status == info.status
                 && info.groups[k].description == FallbackDescription(info.status)
  {
    var info := OutageReport(cityName, response, lastUpdated);
    FallbackStatusFollowsGlobal(info.status);
  }

  /** An answer without the marker gets the default layout with the status read from the whole text. */
  lemma NoMarkerMeansDefaultLayout(cityName: string, text: string, chunks: seq<GroundingChunk>, lastUpdated: int)
    requires !Contains(text, GroupsMarker)
    ensures var info := OutageReport(cityName, AiResponse(Some(text), chunks), lastUpdated);
            && info.summary == Trim(text)
            && info.status == GlobalStatus(Trim(text))
            && info.groups == DefaultGroups(DefaultGroupsForCity(cityName), info.status)
  {
    NoMarkerNoGroupBlock(text);
  }

  /**
   * An answer in the requested format is reported with the summary and the groups it
   * was written with, in order, and the status read from the summary.
   */
  lemma ReportRoundTrip(summary: string, groups: seq<GroupData>, chunks: seq<GroundingChunk>, cityName: string, t: int)
    requires IsTrimmed(summary) && !Contains(summary, GroupsMarker)
    requires groups != [] && forall k :: 0 <= k < |groups| ==> WellFormedGroup(groups[k])
    ensures var info := OutageReport(cityName, AiResponse(Some(FormatReport(summary, groups)), chunks), t);
            info.summary == summary && info.groups == groups && info.status == GlobalStatus(summary)
  {
    GroupTable.ReportRoundTrip(summary, groups);
    assert FormatReport(summary, groups) != "";
  }

  // ---------------------------------------------------------------------------
  // The error path

  /** What the caught exception offers to the rate-limit test: `status`, `message` and `toString()`. */
  datatype ApiError = ApiError(status: Option<int>, message: Option<string>, text: string)

  const RateLimitSummary :=
    "Сервіс перевантажений (Ліміт запитів). Будь ласка, зачекайте хвилину перед наступною спробою."
  const FailureSummary := "Не вдалося отримати дані. Спробуйте пізніше або перевірте з'єднання."

  /** HTTP 429, or `429` / `quota` in the message, or `429` in the error's text. */
  predicate IsRateLimit(e: ApiError) {
    || e.status == Some(429)
    || (e.message.Some? && Contains(e.message.value, "429"))
    || Contains(e.text, "429")
    || (e.message.Some? && Contains(e.message.value, "quota"))
  }

  /** The catch block: an UNKNOWN report with no groups and no sources, explaining the failure. */
  function ErrorReport(e: ApiError, lastUpdated: int): (r: OutageInfo)
    ensures r.status == UNKNOWN && r.groups == [] && r.sources == [] && r.lastUpdated == lastUpdated
    ensures r.summary == RateLimitSummary <==> IsRateLimit(e)
    ensures r.summary == FailureSummary <==> !IsRateLimit(e)
  {
    OutageInfo(UNKNOWN, if IsRateLimit(e) then RateLimitSummary else FailureSummary, [], lastUpdated, [])
  }

  /** The outcome of the network call: an answer, or the exception it threw. */
  datatype Outcome = Answered(response: AiResponse) | Failed(error: ApiError)

  /** `fetchOutageInfo` once the call has settled: UNKNOWN exactly when the call failed. */
  method FetchOutageInfo(cityName: string, outcome: Outcome, lastUpdated: int) returns (info: OutageInfo)
    ensures info.status == UNKNOWN <==> outcome.Failed?
    ensures outcome.Answered? ==> info == OutageReport(cityName, outcome.response, lastUpdated)
    ensures outcome.Failed? ==> info == ErrorReport(outcome.error, lastUpdated)
  {
    match outcome
    case Answered(response) =>
      info := BuildOutageInfo(cityName, response, lastUpdated);
      ReportStatusKnown(cityName, response, lastUpdated);
    case Failed(e) =>
      info := ErrorReport(e, lastUpdated);
  }
}
