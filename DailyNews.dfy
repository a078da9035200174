/**
 * `fetchDailyNews` (services/geminiService.ts): the answer is cut at `---WAR---` and
 * `---LOCAL---` into a summary line and two bullet sections; each section becomes a list
 * of trimmed, non-empty points. When the call fails, the digest is empty and its summary
 * explains why.
 */
module DailyNews {
  import opened Wrappers
  import opened Strings
  import opened Types
  import opened Sources
  import opened GeminiService

  const WarMarker := "---WAR---"
  const LocalMarker := "---LOCAL---"
  const SummaryLabel := "Summary:"
  const Bullet := "- "

  // ---------------------------------------------------------------------------
  // Sections

  /** One line of a section without its leading `- ` (only at the very start of the line), trimmed. */
  function CleanPoint(line: string): (r: string)
    ensures IsTrimmed(r)
  {
    Trim(StripPrefix(line, Bullet))
  }

  /** A line becomes a point unless nothing is left of it. */
  function PointOf(line: string): Option<string> {
    var p := CleanPoint(line);
    if p == "" then None else Some(p)
  }

  /** `cleanPoints`: a missing or empty section has no points; otherwise one per non-blank line. */
  function CleanPoints(section: string): (points: seq<string>)
    ensures section != "" ==> |points| <= |Split(Trim(section), "\n")|
  {
    if section == "" then [] else Present(Map(PointOf, Split(Trim(section), "\n")))
  }

  /** A point never spans lines: the lines a section splits into have no newline, and cleaning keeps it that way. */
  lemma CleanPointOneLine(line: string)
    requires '\n' !in line
    ensures '\n' !in CleanPoint(line)
  {
    var stripped := StripPrefix(line, Bullet);
    assert forall k :: 0 <= k < |stripped| ==> stripped[k] in line by {
      if StartsWith(line, Bullet) {
        assert forall k :: 0 <= k < |stripped| ==> stripped[k] == line[k + 2];
      }
    }
    TrimKeepsAbsent(stripped, '\n');
  }

  /** An empty section has no points; every point is non-empty, trimmed and on one line. */
  lemma CleanPointsShape(section: string)
    ensures section == "" ==> CleanPoints(section) == []
    ensures var points := CleanPoints(section);
            forall k :: 0 <= k < |points| ==> points[k] != "" && IsTrimmed(points[k]) && '\n' !in points[k]
  {
    if section != "" {
      var lines := Split(Trim(section), "\n");
      var opts := Map(PointOf, lines);
      var points := Present(opts);
      forall k | 0 <= k < |points| ensures points[k] != "" && IsTrimmed(points[k]) && '\n' !in points[k] {
        var i :| 0 <= i < |opts| && opts[i] == Some(points[k]);
        ContainsChar(lines[i], '\n');
        CleanPointOneLine(lines[i]);
      }
    }
  }

  /** A line the digest format allows as a point. */
  predicate IsPoint(p: string) {
    p != "" && IsTrimmed(p) && '\n' !in p && !Contains(p, WarMarker) && !Contains(p, LocalMarker)
  }

  /** The bullet lines of a list of points. */
  function Bullets(points: seq<string>): (lines: seq<string>)
    ensures |lines| == |points|
  {
    seq(|points|, k requires 0 <= k < |points| => Bullet + points[k])
  }

  /** A section in the requested format: one `- ` line per point. */
  function BulletList(points: seq<string>): string {
    Join(Bullets(points), "\n")
  }

  /** A bullet line is a trimmed single line, without either marker. */
  lemma BulletLineShape(p: string)
    requires IsPoint(p)
    ensures var line := Bullet + p;
            && line != [] && IsTrimmed(line) && '\n' !in line
            && !Contains(line, WarMarker) && !Contains(line, LocalMarker)
  {
    var line := Bullet + p;
    assert line == "-" + [' '] + p;
    assert line[|line| - 1] == p[|p| - 1];
    ContainsAcross("-", ' ', p, WarMarker);
    ContainsAcross("-", ' ', p, LocalMarker);
  }

  /** A bullet line is read back as its point. */
  lemma BulletLineRead(p: string)
    requires IsPoint(p)
    ensures PointOf(Bullet + p) == Some(p)
  {
    assert StartsWith(Bullet + p, Bullet);
    TrimIdentity(p);
  }

  /** The bullet list is trimmed and contains neither marker; it is empty only for no points. */
  lemma BulletListShape(points: seq<string>)
    requires forall k :: 0 <= k < |points| ==> IsPoint(points[k])
    ensures var lines := Bullets(points);
            && (forall k :: 0 <= k < |lines| ==> '\n' !in lines[k])
            && IsTrimmed(BulletList(points))
            && !Contains(BulletList(points), WarMarker) && !Contains(BulletList(points), LocalMarker)
  {
    var lines := Bullets(points);
    forall k | 0 <= k < |lines|
      ensures lines[k] != [] && IsTrimmed(lines[k]) && '\n' !in lines[k]
      ensures !Contains(lines[k], WarMarker) && !Contains(lines[k], LocalMarker)
    {
      BulletLineShape(points[k]);
    }
    JoinKeepsAbsent(lines, '\n', WarMarker);
    JoinKeepsAbsent(lines, '\n', LocalMarker);
    JoinTrimmed(lines, "\n");
  }

  /** A section whose trimmed text is a bullet list yields exactly the points written, in order. */
  lemma {:induction false} ReadBulletList(section: string, points: seq<string>)
    requires section != "" && Trim(section) == BulletList(points)
    requires forall k :: 0 <= k < |points| ==> IsPoint(points[k])
    ensures CleanPoints(section) == points
  {
    var lines := Bullets(points);
    BulletListShape(points);
    if points == [] {
      assert BulletList(points) == "";
      SplitNone("", '\n');
      var none: Option<string> := None;
      assert Map(PointOf, [""]) == [none];
      assert Present([none]) == [];
    } else {
      SplitJoin(lines, '\n');
      var opts := Map(PointOf, lines);
      forall k | 0 <= k < |points| ensures opts[k] == Some(points[k]) {
        BulletLineRead(points[k]);
      }
      PresentAll(opts, points);
    }
  }

  // ---------------------------------------------------------------------------
  // The digest

  /** The digest read from the answer's text (`response.text || ''`). */
  function ParseNews(text: string, lastUpdated: int): (news: NewsResult)
    ensures news.lastUpdated == lastUpdated
  {
    var parts := Split(text, WarMarker);
    var rest := if |parts| > 1 then parts[1] else "";
    var sections := Split(rest, LocalMarker);
    var localPart := if |sections| > 1 then sections[1] else "";
    NewsResult(Trim(ReplaceFirst(parts[0], SummaryLabel, "")), CleanPoints(sections[0]), CleanPoints(localPart), lastUpdated)
  }

  /** Every point of a digest is non-empty, trimmed and on one line. */
  lemma NewsPointsShape(text: string, lastUpdated: int)
    ensures var news := ParseNews(text, lastUpdated);
            && (forall k :: 0 <= k < |news.war| ==> news.war[k] != "" && IsTrimmed(news.war[k]) && '\n' !in news.war[k])
            && (forall k :: 0 <= k < |news.local| ==> news.local[k] != "" && IsTrimmed(news.local[k]) && '\n' !in news.local[k])
  {
    var parts := Split(text, WarMarker);
    var rest := if |parts| > 1 then parts[1] else "";
    var sections := Split(rest, LocalMarker);
    CleanPointsShape(sections[0]);
    CleanPointsShape(if |sections| > 1 then sections[1] else "");
  }

  /** Without the war marker the whole text is the summary and both lists are empty. */
  lemma NoWarMarkerNoPoints(text: string, lastUpdated: int)
    requires !Contains(text, WarMarker)
    ensures ParseNews(text, lastUpdated) == NewsResult(Trim(ReplaceFirst(text, SummaryLabel, "")), [], [], lastUpdated)
  {
    IndexOfAbsent(text, WarMarker);
    IndexOfAbsent("", LocalMarker);
  }

  /** The answer in the requested format. */
  function FormatNews(summary: string, war: seq<string>, local: seq<string>): string {
    SummaryLabel + " " + summary + "\n" + WarMarker + "\n" + BulletList(war) + "\n" + LocalMarker + "\n" + BulletList(local)
  }

  /** The local marker does not contain the war marker. */
  lemma MarkersDistinct()
    ensures !Contains(LocalMarker, WarMarker)
  {
    forall i | 0 <= i && i + |WarMarker| <= |LocalMarker| ensures !OccursAt(LocalMarker, WarMarker, i) {
      assert LocalMarker[i + 3] != 'W';
      assert WarMarker[3] == 'W';
    }
  }

  /** The summary line of the requested format, cut off at the war marker, reads back as the summary. */
  lemma SummaryLineRead(summary: string)
    requires IsTrimmed(summary)
    ensures Trim(ReplaceFirst(SummaryLabel + " " + summary + "\n", SummaryLabel, "")) == summary
  {
    assert SummaryLabel + " " + summary + "\n" == SummaryLabel + (" " + summary + "\n");
    ReplaceAtStart(SummaryLabel, " " + summary + "\n");
    assert " " + summary + "\n" == [' '] + (summary + "\n");
    TrimDropsLeading(' ', summary + "\n");
    TrimDropsTrailing(summary, '\n');
    TrimIdentity(summary);
  }

  /** The text after the war marker splits at the local marker into the two bullet sections. */
  lemma SectionsSplit(war: seq<string>, local: seq<string>)
    requires forall k :: 0 <= k < |war| ==> IsPoint(war[k])
    requires forall k :: 0 <= k < |local| ==> IsPoint(local[k])
    ensures var rest := "\n" + (BulletList(war) + "\n" + LocalMarker + "\n" + BulletList(local));
            Split(rest, LocalMarker) == ["\n" + BulletList(war) + "\n", "\n" + BulletList(local)]
  {
    assert "\n" + (BulletList(war) + "\n" + LocalMarker + "\n" + BulletList(local))
        == ("\n" + BulletList(war)) + "\n" + LocalMarker + "\n" + BulletList(local);
    BulletListShape(war);
    BulletListShape(local);
    assert "\n" + BulletList(war) == [] + ['\n'] + BulletList(war);
    ContainsAcross([], '\n', BulletList(war), LocalMarker);
    SplitAroundLine("\n" + BulletList(war), LocalMarker, BulletList(local));
  }

  /** The summary line of the requested format does not contain the war marker. */
  lemma HeadWithoutWarMarker(summary: string)
    requires !Contains(summary, WarMarker)
    ensures !Contains(SummaryLabel + " " + summary, WarMarker)
  {
    assert SummaryLabel + " " + summary == SummaryLabel + [' '] + summary;
    ShortNotContains(SummaryLabel, WarMarker);
    ContainsAcross(SummaryLabel, ' ', summary, WarMarker);
  }

  /** The sections of the requested format do not contain the war marker. */
  lemma TailWithoutWarMarker(war: seq<string>, local: seq<string>)
    requires forall k :: 0 <= k < |war| ==> IsPoint(war[k])
    requires forall k :: 0 <= k < |local| ==> IsPoint(local[k])
    ensures !Contains(BulletList(war) + "\n" + LocalMarker + "\n" + BulletList(local), WarMarker)
  {
    var tail := BulletList(war) + "\n" + LocalMarker + "\n" + BulletList(local);
    BulletListShape(war);
    BulletListShape(local);
    MarkersDistinct();
    assert tail == BulletList(war) + ['\n'] + (LocalMarker + ['\n'] + BulletList(local));
    ContainsAcross(LocalMarker, '\n', BulletList(local), WarMarker);
    ContainsAcross(BulletList(war), '\n', LocalMarker + ['\n'] + BulletList(local), WarMarker);
  }

  /** The requested format splits at the war marker into the summary line and the sections. */
  lemma SummarySplit(summary: string, war: seq<string>, local: seq<string>)
    requires !Contains(summary, WarMarker)
    requires forall k :: 0 <= k < |war| ==> IsPoint(war[k])
    requires forall k :: 0 <= k < |local| ==> IsPoint(local[k])
    ensures var head := SummaryLabel + " " + summary;
            var tail := BulletList(war) + "\n" + LocalMarker + "\n" + BulletList(local);
            Split(FormatNews(summary, war, local), WarMarker) == [head + "\n", "\n" + tail]
  {
    var head := SummaryLabel + " " + summary;
    var tail := BulletList(war) + "\n" + LocalMarker + "\n" + BulletList(local);
    HeadWithoutWarMarker(summary);
    TailWithoutWarMarker(war, local);
    assert FormatNews(summary, war, local) == head + "\n" + WarMarker + "\n" + tail;
    SplitAroundLine(head, WarMarker, tail);
  }

  /** The war section, between its two line breaks, is read back as the war points. */
  lemma WarSectionRead(war: seq<string>)
    requires forall k :: 0 <= k < |war| ==> IsPoint(war[k])
    ensures CleanPoints("\n" + BulletList(war) + "\n") == war
  {
    var warPart := "\n" + BulletList(war) + "\n";
    assert warPart == ['\n'] + (BulletList(war) + "\n");
    TrimDropsLeading('\n', BulletList(war) + "\n");
    TrimDropsTrailing(BulletList(war), '\n');
    BulletListShape(war);
    TrimIdentity(BulletList(war));
    ReadBulletList(warPart, war);
  }

  /** The local section, after its line break, is read back as the local points. */
  lemma LocalSectionRead(local: seq<string>)
    requires forall k :: 0 <= k < |local| ==> IsPoint(local[k])
    ensures CleanPoints("\n" + BulletList(local)) == local
  {
    BulletListShape(local);
    TrimDropsLeading('\n', BulletList(local));
    TrimIdentity(BulletList(local));
    ReadBulletList("\n" + BulletList(local), local);
  }

  /** A text that splits into a summary part and two sections is read from those pieces. */
  lemma ParseNewsOfPieces(text: string, summaryPart: string, rest: string, warPart: string, localPart: string, lastUpdated: int)
    requires Split(text, WarMarker) == [summaryPart, rest]
    requires Split(rest, LocalMarker) == [warPart, localPart]
    ensures ParseNews(text, lastUpdated) ==
              NewsResult(Trim(ReplaceFirst(summaryPart, SummaryLabel, "")), CleanPoints(warPart), CleanPoints(localPart), lastUpdated)
  {
  }

  /**
   * An answer in the requested format is read back exactly: the summary written, and the
   * war and local points written, in order.
   */
  lemma NewsRoundTrip(summary: string, war: seq<string>, local: seq<string>, lastUpdated: int)
    requires IsTrimmed(summary) && !Contains(summary, WarMarker)
    requires forall k :: 0 <= k < |war| ==> IsPoint(war[k])
    requires forall k :: 0 <= k < |local| ==> IsPoint(local[k])
    ensures ParseNews(FormatNews(summary, war, local), lastUpdated) == NewsResult(summary, war, local, lastUpdated)
  {
    var head := SummaryLabel + " " + summary;
    var tail := BulletList(war) + "\n" + LocalMarker + "\n" + BulletList(local);
    SummarySplit(summary, war, local);
    SectionsSplit(war, local);
    ParseNewsOfPieces(FormatNews(summary, war, local), head + "\n", "\n" + tail,
      "\n" + BulletList(war) + "\n", "\n" + BulletList(local), lastUpdated);
    SummaryLineRead(summary);
    WarSectionRead(war);
    LocalSectionRead(local);
  }

  // ---------------------------------------------------------------------------
  // The error path

  const NewsRateLimitSummary := "Ліміт запитів вичерпано. Спробуйте пізніше."
  const NewsFailureSummary := "Не вдалося завантажити новини."

  /** HTTP 429, or `429` in the message or in the error's text; unlike the outage report, `quota` does not count. */
  predicate IsNewsRateLimit(e: ApiError) {
    || e.status == Some(429)
    || (e.message.Some? && Contains(e.message.value, "429"))
    || Contains(e.text, "429")
  }

  /** The catch block: an empty digest whose summary explains the failure. */
  function NewsErrorReport(e: ApiError, lastUpdated: int): (r: NewsResult)
    ensures r.war == [] && r.local == [] && r.lastUpdated == lastUpdated
    ensures r.summary == NewsRateLimitSummary <==> IsNewsRateLimit(e)
    ensures r.summary == NewsFailureSummary <==> !IsNewsRateLimit(e)
  {
    NewsResult(if IsNewsRateLimit(e) then NewsRateLimitSummary else NewsFailureSummary, [], [], lastUpdated)
  }

  /** The news test is the outage test without the `quota` clause. */
  lemma NewsRateLimitNarrower(e: ApiError)
    ensures IsRateLimit(e) <==> IsNewsRateLimit(e) || (e.message.Some? && Contains(e.message.value, "quota"))
    ensures IsNewsRateLimit(e) ==> ErrorReport(e, 0).summary == RateLimitSummary
  {
  }

  /** A quota message without `429` is a rate limit for the outage report but a plain failure for the digest. */
  lemma QuotaOnlyCountsForOutages(message: string)
    requires Contains(message, "quota") && '4' !in message
    ensures var e := ApiError(None, Some(message), message);
            ErrorReport(e, 0).summary == RateLimitSummary && NewsErrorReport(e, 0).summary == NewsFailureSummary
  {
    AbsentFirstChar(message, "429");
  }

  /** `fetchDailyNews` once the call has settled. */
  method FetchDailyNews(outcome: Outcome, lastUpdated: int) returns (news: NewsResult)
    ensures outcome.Answered? ==> news == ParseNews(OrElse(outcome.response.text, ""), lastUpdated)
    ensures outcome.Failed? ==> news == NewsErrorReport(outcome.error, lastUpdated)
  {
    match outcome
    case Answered(response) =>
      news := ParseNews(OrElse(response.text, ""), lastUpdated);
    case Failed(e) =>
      news := NewsErrorReport(e, lastUpdated);
  }
}
