/**
 * The textual answer of the outage search (services/geminiService.ts, lines 99-131): a free
 * summary, the marker `---GROUPS_DATA---`, then one `GroupId|Status|TimeRange` line per
 * outage group, possibly wrapped in a markdown table. Splitting, line parsing, and the line
 * format the prompt asks for, as a reference encoder the parser inverts.
 */
module GroupTable {
  import opened Wrappers
  import opened Strings
  import opened Types

  const GroupsMarker := "---GROUPS_DATA---"

  datatype ReportParts = ReportParts(summary: string, groupBlock: string)

  /**
   * The trimmed text before the first marker is the summary; the trimmed text after it, up
   * to a second marker if there is one, is the group block (empty without a marker).
   */
  function SplitReport(fullText: string): (r: ReportParts)
    ensures IsTrimmed(r.summary) && IsTrimmed(r.groupBlock)
  {
    var parts := Split(fullText, GroupsMarker);
    ReportParts(Trim(parts[0]), if |parts| > 1 then Trim(parts[1]) else "")
  }

  /** Without the marker the whole answer is the summary and there is no group block. */
  lemma NoMarkerNoGroupBlock(fullText: string)
    requires !Contains(fullText, GroupsMarker)
    ensures SplitReport(fullText) == ReportParts(Trim(fullText), "")
  {
    IndexOfAbsent(fullText, GroupsMarker);
  }

  /** With a marker, the summary is what precedes its first occurrence, the block what follows, up to a second one. */
  lemma SplitReportAtMarker(fullText: string, i: nat)
    requires IndexOf(fullText, GroupsMarker) == Some(i)
    ensures SplitReport(fullText).summary == Trim(fullText[..i])
    ensures !Contains(fullText[i + |GroupsMarker|..], GroupsMarker) ==>
              SplitReport(fullText).groupBlock == Trim(fullText[i + |GroupsMarker|..])
    ensures forall j :: IndexOf(fullText[i + |GroupsMarker|..], GroupsMarker) == Some(j) ==>
              SplitReport(fullText).groupBlock == Trim(fullText[i + |GroupsMarker|..][..j])
  {
    var rest := fullText[i + |GroupsMarker|..];
    assert Split(fullText, GroupsMarker) == [fullText[..i]] + Split(rest, GroupsMarker);
    if !Contains(rest, GroupsMarker) {
      IndexOfAbsent(rest, GroupsMarker);
    }
  }

  // ---------------------------------------------------------------------------
  // Group lines

  /** Trim the line, then drop one leading and one trailing `|` (markdown table borders). */
  function CleanLine(line: string): (r: string)
    ensures var t := Trim(line);
            |r| <= |t| <= |r| + 2 && (r == t[..|r|] || (|r| < |t| && r == t[1..|r| + 1]))
    ensures '|' !in Trim(line) ==> r == Trim(line)
  {
    StripSuffix(StripPrefix(Trim(line), "|"), "|")
  }

  /** Removing a leading `|` cuts the first character exactly when it is a `|`. */
  lemma DropLeadingBar(t: string)
    ensures StripPrefix(t, "|") == t[(if |t| > 0 && t[0] == '|' then 1 else 0)..]
  {
    if |t| > 0 && t[0] == '|' {
      assert t == "|" + t[1..];
    } else {
      assert |t| == 0 || t[..1][0] != '|';
    }
  }

  /** Removing a trailing `|` cuts the last character exactly when it is a `|`. */
  lemma DropTrailingBar(u: string)
    ensures StripSuffix(u, "|") == u[..|u| - (if |u| > 0 && u[|u| - 1] == '|' then 1 else 0)]
  {
    if |u| > 0 && u[|u| - 1] == '|' {
      assert u == u[..|u| - 1] + "|";
    } else {
      assert |u| == 0 || u[|u| - 1..][0] != '|';
    }
  }

  /**
   * Cleaning cuts exactly the first character of the trimmed line when it is a `|`, and then
   * the last one of what is left when that is a `|`; nothing else.
   */
  lemma CleanLineExact(line: string)
    ensures var t := Trim(line);
            var front := if |t| > 0 && t[0] == '|' then 1 else 0;
            var back := if |t| > front && t[|t| - 1] == '|' then 1 else 0;
            CleanLine(line) == t[front..|t| - back]
  {
    var t := Trim(line);
    var front := if |t| > 0 && t[0] == '|' then 1 else 0;
    DropLeadingBar(t);
    var u := t[front..];
    DropTrailingBar(u);
    assert |u| > 0 ==> u[|u| - 1] == t[|t| - 1];
  }

  /** Text that marks a table header or separator rather than a group. */
  predicate LooksLikeHeader(text: string) {
    Contains(ToLower(text), "groupid") || Contains(text, "---") || Contains(ToLower(text), "status")
  }

  /** Status codes are matched exactly and case-sensitively; anything else is UNKNOWN. */
  function StatusOfCode(code: string): PowerStatus {
    if code == "ON" then ON
    else if code == "OFF" then OFF
    else if code == "MAYBE" then MAYBE
    else UNKNOWN
  }

  /**
   * One line of the group block: header and separator lines give nothing; otherwise the
   * first three `|`-fields, trimmed, are id, status code and description, and a line
   * whose id or code is empty gives nothing.
   */
  function ParseGroupLine(line: string): Option<GroupData> {
    var clean := CleanLine(line);
    if LooksLikeHeader(clean) then None
    else
      var fields := Split(clean, "|");
      var id := Trim(fields[0]);
      var statusStr := if |fields| > 1 then Trim(fields[1]) else "";
      if id == "" || statusStr == "" then None
      else
        var description := if |fields| > 2 then Trim(fields[2]) else "";
        Some(GroupData(id, StatusOfCode(statusStr), description))
  }

  /** A parsed group has a non-empty trimmed id and a trimmed description, neither holding a `|`. */
  lemma ParsedGroupShape(line: string)
    ensures ParseGroupLine(line).Some? ==>
              var g := ParseGroupLine(line).value;
              && g.id != "" && IsTrimmed(g.id) && IsTrimmed(g.description)
              && '|' !in g.id && '|' !in g.description
  {
    var clean := CleanLine(line);
    if !LooksLikeHeader(clean) {
      var fields := Split(clean, "|");
      ContainsChar(fields[0], '|');
      TrimKeepsAbsent(fields[0], '|');
      if |fields| > 2 {
        ContainsChar(fields[2], '|');
        TrimKeepsAbsent(fields[2], '|');
      }
    }
  }

  /** A line without any `|` has no status field, so it never yields a group. */
  lemma LineWithoutBarSkipped(line: string)
    requires '|' !in line
    ensures ParseGroupLine(line) == None
  {
    var t := Trim(line);
    TrimKeepsAbsent(line, '|');
    assert |t| == 0 || t[..1][0] != '|';
    assert |t| == 0 || t[|t| - 1..][0] != '|';
    assert CleanLine(line) == t;
    ContainsChar(t, '|');
    IndexOfAbsent(t, "|");
  }

  /** `lines.map(parseGroupLine).filter(g => g !== null)`. */
  function ParseLines(lines: seq<string>): (groups: seq<GroupData>)
    ensures |groups| <= |lines|
  {
    Present(Map(ParseGroupLine, lines))
  }

  /** Every group read from a block has a non-empty id with no `|` in it. */
  lemma ParsedGroupsShape(lines: seq<string>)
    ensures forall k :: 0 <= k < |ParseLines(lines)| ==>
              ParseLines(lines)[k].id != "" && '|' !in ParseLines(lines)[k].id
  {
    var opts := Map(ParseGroupLine, lines);
    var groups := Present(opts);
    forall k | 0 <= k < |groups| ensures groups[k].id != "" && '|' !in groups[k].id {
      var i :| 0 <= i < |opts| && opts[i] == Some(groups[k]);
      ParsedGroupShape(lines[i]);
    }
  }

  /** Each line contributes its own group or nothing, in input order: parsing distributes over concatenation. */
  lemma ParseLinesConcat(a: seq<string>, b: seq<string>)
    ensures ParseLines(a + b) == ParseLines(a) + ParseLines(b)
  {
    MapConcat(ParseGroupLine, a, b);
    PresentConcat(Map(ParseGroupLine, a), Map(ParseGroupLine, b));
  }

  /** The group block is read line by line; an empty block gives no groups. */
  function ParseGroups(groupBlock: string): (r: seq<GroupData>)
    ensures groupBlock == "" ==> r == []
    ensures forall k :: 0 <= k < |r| ==> r[k].id != "" && '|' !in r[k].id
  {
    if groupBlock == "" then []
    else
      ParsedGroupsShape(Split(groupBlock, "\n"));
      ParseLines(Split(groupBlock, "\n"))
  }

  // ---------------------------------------------------------------------------
  // The line format the prompt asks for, as a reference encoder

  function StatusCode(s: PowerStatus): string {
    match s
    case ON => "ON"
    case OFF => "OFF"
    case MAYBE => "MAYBE"
    case UNKNOWN => "UNKNOWN"
  }

  /** `GroupId|Status|TimeRange`. */
  function FormatGroupLine(g: GroupData): string {
    g.id + "|" + StatusCode(g.status) + "|" + g.description
  }

  /** A group the line format can carry: a non-empty id, trimmed fields, no separators, no header words. */
  predicate WellFormedGroup(g: GroupData) {
    && g.id != "" && IsTrimmed(g.id) && IsTrimmed(g.description)
    && '|' !in g.id && '|' !in g.description
    && '\n' !in g.id && '\n' !in g.description
    && !LooksLikeHeader(g.id) && !LooksLikeHeader(g.description)
  }

  /** Every status survives being written as its code and read back. */
  lemma StatusCodeRoundTrip(s: PowerStatus)
    ensures StatusOfCode(StatusCode(s)) == s
  {
    match s
    case ON =>
    case OFF => assert "OFF" != "ON";
    case MAYBE => assert "MAYBE" != "ON" && "MAYBE" != "OFF";
    case UNKNOWN => assert "UNKNOWN" != "ON" && "UNKNOWN" != "OFF" && "UNKNOWN" != "MAYBE";
  }

  /** The four code words are non-empty, trimmed and free of separators. */
  lemma StatusCodeShape(s: PowerStatus)
    ensures StatusCode(s) != [] && IsTrimmed(StatusCode(s))
    ensures '|' !in StatusCode(s) && '\n' !in StatusCode(s)
  {
  }

  /** No code word contains a header word. */
  lemma StatusCodeNotHeader(s: PowerStatus)
    ensures !LooksLikeHeader(StatusCode(s))
  {
    var code := StatusCode(s);
    var lower := ToLower(code);
    forall k | 0 <= k < |code| ensures lower[k] != 'g' && lower[k] != 's' && code[k] != '-' {
      assert 'A' <= code[k] <= 'Z' && code[k] != 'G' && code[k] != 'S';
    }
    AbsentFirstChar(lower, "groupid");
    AbsentFirstChar(lower, "status");
    AbsentFirstChar(code, "---");
  }

  /** `a|b` contains a header word only if `a` or `b` does. */
  lemma HeaderAcrossBar(a: string, b: string)
    ensures LooksLikeHeader(a + "|" + b) <==> LooksLikeHeader(a) || LooksLikeHeader(b)
  {
    ToLowerConcat(a + "|", b);
    ToLowerConcat(a, "|");
    assert ToLower("|") == "|";
    assert ToLower(a + "|" + b) == ToLower(a) + ['|'] + ToLower(b);
    assert a + "|" + b == a + ['|'] + b;
    ContainsAcross(ToLower(a), '|', ToLower(b), "groupid");
    ContainsAcross(ToLower(a), '|', ToLower(b), "status");
    ContainsAcross(a, '|', b, "---");
  }

  /** A formatted line starts with the id and is trimmed. */
  lemma FormattedLineTrimmed(g: GroupData)
    requires WellFormedGroup(g)
    ensures FormatGroupLine(g) != [] && FormatGroupLine(g)[0] == g.id[0] && IsTrimmed(FormatGroupLine(g))
  {
    var line := FormatGroupLine(g);
    StatusCodeShape(g.status);
    assert line[0] == g.id[0];
    if g.description != "" {
      assert line[|line| - 1] == g.description[|g.description| - 1];
    }
  }

  /** A formatted line holds no newline. */
  lemma FormattedLineSingle(g: GroupData)
    requires WellFormedGroup(g)
    ensures '\n' !in FormatGroupLine(g)
  {
    StatusCodeShape(g.status);
  }

  /** A formatted line holds no header word and no `---`, hence no marker. */
  lemma FormattedLineNotHeader(g: GroupData)
    requires WellFormedGroup(g)
    ensures !LooksLikeHeader(FormatGroupLine(g)) && !Contains(FormatGroupLine(g), GroupsMarker)
  {
    var line := FormatGroupLine(g);
    var code := StatusCode(g.status);
    StatusCodeNotHeader(g.status);
    assert line == g.id + "|" + (code + "|" + g.description);
    HeaderAcrossBar(code, g.description);
    HeaderAcrossBar(g.id, code + "|" + g.description);
    if Contains(line, GroupsMarker) {
      ContainsPrefixOfPattern(line, GroupsMarker, "---");
    }
  }

  /** A formatted well-formed line is one trimmed line without header words or marker. */
  lemma FormattedLineShape(g: GroupData)
    requires WellFormedGroup(g)
    ensures var line := FormatGroupLine(g);
            && line != [] && IsTrimmed(line) && '\n' !in line
            && !LooksLikeHeader(line) && !Contains(line, GroupsMarker)
  {
    FormattedLineTrimmed(g);
    FormattedLineSingle(g);
    FormattedLineNotHeader(g);
  }

  /** Cleaning a formatted line only drops the bar left over by an empty description. */
  lemma CleanFormattedLine(g: GroupData)
    requires WellFormedGroup(g)
    ensures CleanLine(FormatGroupLine(g)) ==
              if g.description == "" then g.id + "|" + StatusCode(g.status) else FormatGroupLine(g)
  {
    var line := FormatGroupLine(g);
    FormattedLineTrimmed(g);
    TrimIdentity(line);
    assert !StartsWith(line, "|") by { assert line[..1] == [g.id[0]]; }
    if g.description == "" {
      assert line == (g.id + "|" + StatusCode(g.status)) + "|";
    } else {
      assert line[|line| - 1] == g.description[|g.description| - 1];
    }
  }

  /** Two bar-free fields joined by a bar split back into those fields. */
  lemma SplitTwoFields(a: string, b: string)
    requires '|' !in a && '|' !in b
    ensures Split(a + "|" + b, "|") == [a, b]
  {
    SplitFirst(a, '|', b);
    SplitNone(b, '|');
  }

  /** Three bar-free fields joined by bars split back into those fields. */
  lemma SplitThreeFields(a: string, b: string, c: string)
    requires '|' !in a && '|' !in b && '|' !in c
    ensures Split(a + "|" + b + "|" + c, "|") == [a, b, c]
  {
    assert a + "|" + b + "|" + c == a + ['|'] + (b + "|" + c);
    SplitFirst(a, '|', b + "|" + c);
    SplitTwoFields(b, c);
  }

  /** The fields of a formatted line are the group's id, code and description. */
  lemma FieldsOfFormattedLine(g: GroupData)
    requires WellFormedGroup(g)
    ensures var fields := Split(CleanLine(FormatGroupLine(g)), "|");
            && |fields| >= 2 && fields[0] == g.id && fields[1] == StatusCode(g.status)
            && (|fields| > 2 ==> fields[2] == g.description)
            && (|fields| <= 2 ==> g.description == "")
  {
    StatusCodeShape(g.status);
    CleanFormattedLine(g);
    if g.description == "" {
      SplitTwoFields(g.id, StatusCode(g.status));
    } else {
      SplitThreeFields(g.id, StatusCode(g.status), g.description);
    }
  }

  /**
   * A line is accepted exactly when, once cleaned, it is no header and its first two
   * `|`-fields are non-empty after trimming; the group is then those fields, with the
   * third (or nothing) as its description.
   */
  lemma GroupLineAccepted(line: string)
    ensures var fields := Split(CleanLine(line), "|");
            && (ParseGroupLine(line).Some? <==>
                  !LooksLikeHeader(CleanLine(line)) && |fields| >= 2 && Trim(fields[0]) != "" && Trim(fields[1]) != "")
            && (ParseGroupLine(line).Some? ==>
                  ParseGroupLine(line).value ==
                    GroupData(Trim(fields[0]), StatusOfCode(Trim(fields[1])), if |fields| > 2 then Trim(fields[2]) else ""))
  {
  }

  /** A line between two border bars is cleaned back to what it holds between them. */
  lemma CleanBorderedLine(x: string)
    ensures CleanLine("|" + x + "|") == x
  {
    var t := "|" + x + "|";
    assert t[0] == '|' && t[|t| - 1] == '|';
    TrimIdentity(t);
    assert StripPrefix(t, "|") == x + "|";
  }

  /**
   * A well-formed group written as a markdown table row, `|` + `GroupId|Status|TimeRange` +
   * `|`, is parsed back to itself, whether or not its description is empty.
   */
  lemma TableRowRoundTrip(g: GroupData)
    requires WellFormedGroup(g)
    ensures ParseGroupLine("|" + FormatGroupLine(g) + "|") == Some(g)
  {
    var row := "|" + FormatGroupLine(g) + "|";
    var code := StatusCode(g.status);
    CleanBorderedLine(FormatGroupLine(g));
    FormattedLineNotHeader(g);
    StatusCodeShape(g.status);
    SplitThreeFields(g.id, code, g.description);
    StatusCodeRoundTrip(g.status);
    TrimIdentity(g.id);
    TrimIdentity(code);
    TrimIdentity(g.description);
    GroupLineAccepted(row);
  }

  /** A formatted line is not a header once its border bars are cleaned away. */
  lemma CleanFormattedNotHeader(g: GroupData)
    requires WellFormedGroup(g)
    ensures !LooksLikeHeader(CleanLine(FormatGroupLine(g)))
  {
    FormattedLineNotHeader(g);
    CleanFormattedLine(g);
    if g.description == "" {
      StatusCodeNotHeader(g.status);
      HeaderAcrossBar(g.id, StatusCode(g.status));
    }
  }

  /** A well-formed group written in the prompt's line format is parsed back to itself. */
  lemma GroupLineRoundTrip(g: GroupData)
    requires WellFormedGroup(g)
    ensures ParseGroupLine(FormatGroupLine(g)) == Some(g)
  {
    var line := FormatGroupLine(g);
    var fields := Split(CleanLine(line), "|");
    CleanFormattedNotHeader(g);
    FieldsOfFormattedLine(g);
    StatusCodeShape(g.status);
    StatusCodeRoundTrip(g.status);
    TrimIdentity(g.id);
    TrimIdentity(StatusCode(g.status));
    TrimIdentity(g.description);
    GroupLineAccepted(line);
  }

  /** The lines the prompt asks for, one per group. */
  function FormatGroupLines(groups: seq<GroupData>): (lines: seq<string>)
    ensures |lines| == |groups|
  {
    seq(|groups|, k requires 0 <= k < |groups| => FormatGroupLine(groups[k]))
  }

  /** Well-formed groups written one per line are parsed back, in order. */
  lemma GroupLinesRoundTrip(groups: seq<GroupData>)
    requires forall k :: 0 <= k < |groups| ==> WellFormedGroup(groups[k])
    ensures ParseLines(FormatGroupLines(groups)) == groups
  {
    var lines := FormatGroupLines(groups);
    var opts := Map(ParseGroupLine, lines);
    forall i | 0 <= i < |opts| ensures opts[i] == Some(groups[i]) {
      GroupLineRoundTrip(groups[i]);
    }
    PresentAll(opts, groups);
  }

  /** The answer the prompt asks for: a summary, the marker, then one line per group. */
  function FormatReport(summary: string, groups: seq<GroupData>): string {
    summary + "\n" + GroupsMarker + "\n" + Join(FormatGroupLines(groups), "\n")
  }

  /** In a summary and a block around the marker, the marker is found right after the summary's line. */
  lemma MarkerAfterSummary(summary: string, block: string)
    requires !Contains(summary, GroupsMarker) && !Contains(block, GroupsMarker)
    ensures var text := summary + "\n" + GroupsMarker + "\n" + block;
            && IndexOf(text, GroupsMarker) == Some(|summary| + 1)
            && text[..|summary| + 1] == summary + "\n"
            && text[|summary| + 1 + |GroupsMarker|..] == "\n" + block
            && !Contains("\n" + block, GroupsMarker)
  {
    var tail := "\n" + block;
    var t := GroupsMarker + tail;
    var text := summary + "\n" + GroupsMarker + "\n" + block;
    assert text == summary + ['\n'] + t;
    assert IndexOf(text, GroupsMarker) == Some(|summary| + 1) by {
      assert t[..|GroupsMarker|] == GroupsMarker;
      IndexOfAfterSeparator(summary, '\n', t, GroupsMarker);
    }
    assert !Contains(tail, GroupsMarker) by {
      assert tail == [] + ['\n'] + block;
      ContainsAcross([], '\n', block, GroupsMarker);
    }
    assert text[..|summary| + 1] == summary + "\n";
    assert text[|summary| + 1 + |GroupsMarker|..] == tail;
  }

  /** A summary and a block around the marker, each on its own lines, are split back apart. */
  lemma SplitAroundMarker(summary: string, block: string)
    requires IsTrimmed(summary) && !Contains(summary, GroupsMarker)
    requires IsTrimmed(block) && !Contains(block, GroupsMarker)
    ensures SplitReport(summary + "\n" + GroupsMarker + "\n" + block) == ReportParts(summary, block)
  {
    var text := summary + "\n" + GroupsMarker + "\n" + block;
    MarkerAfterSummary(summary, block);
    SplitReportAtMarker(text, |summary| + 1);
    TrimDropsTrailing(summary, '\n');
    TrimIdentity(summary);
    TrimDropsLeading('\n', block);
    TrimIdentity(block);
  }

  /** The formatted lines joined by newlines form a trimmed block without the marker. */
  lemma FormattedBlockShape(groups: seq<GroupData>)
    requires forall k :: 0 <= k < |groups| ==> WellFormedGroup(groups[k])
    ensures var lines := FormatGroupLines(groups);
            && (forall k :: 0 <= k < |lines| ==> '\n' !in lines[k])
            && IsTrimmed(Join(lines, "\n")) && !Contains(Join(lines, "\n"), GroupsMarker)
            && (groups != [] ==> Join(lines, "\n") != "")
  {
    var lines := FormatGroupLines(groups);
    forall k | 0 <= k < |lines|
      ensures lines[k] != [] && IsTrimmed(lines[k]) && '\n' !in lines[k] && !Contains(lines[k], GroupsMarker)
    {
      FormattedLineShape(groups[k]);
    }
    JoinKeepsAbsent(lines, '\n', GroupsMarker);
    JoinTrimmed(lines, "\n");
  }

  /**
   * A well-formed answer in the requested format is read back exactly: the summary is the
   * summary written and the groups are the groups written, in order.
   */
  lemma ReportRoundTrip(summary: string, groups: seq<GroupData>)
    requires IsTrimmed(summary) && !Contains(summary, GroupsMarker)
    requires forall k :: 0 <= k < |groups| ==> WellFormedGroup(groups[k])
    ensures SplitReport(FormatReport(summary, groups)).summary == summary
    ensures ParseGroups(SplitReport(FormatReport(summary, groups)).groupBlock) == groups
  {
    var lines := FormatGroupLines(groups);
    FormattedBlockShape(groups);
    assert FormatReport(summary, groups) == summary + "\n" + GroupsMarker + "\n" + Join(lines, "\n");
    SplitAroundMarker(summary, Join(lines, "\n"));
    if groups != [] {
      SplitJoin(lines, '\n');
      GroupLinesRoundTrip(groups);
    }
  }
}
