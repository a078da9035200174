/** The records the outage service produces and the screens consume (types.ts). */
module Types {

  /** Power state of a city or of one outage group. */
  datatype PowerStatus = ON | OFF | MAYBE | UNKNOWN

  /** One outage group: its identifier as the response wrote it, its state and a free text. */
  datatype GroupData = GroupData(id: string, status: PowerStatus, description: string)

  /** A grounding citation shown under the report. */
  datatype Source = Source(title: string, uri: string)

  /** The report for one city; `lastUpdated` is the fetch time in milliseconds. */
  datatype OutageInfo = OutageInfo(
    status: PowerStatus,
    summary: string,
    groups: seq<GroupData>,
    lastUpdated: int,
    sources: seq<Source>)

  /** The daily news digest: one summary line and two bullet lists. */
  datatype NewsResult = NewsResult(summary: string, war: seq<string>, local: seq<string>, lastUpdated: int)
}
