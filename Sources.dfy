/**
 * The grounding citations of an outage report (services/geminiService.ts, lines 184-198):
 * each chunk becomes a (title, uri) pair with `Джерело` and `#` as fallbacks, pairs without
 * a uri are dropped, duplicates by uri are removed keeping the first, and at most four remain.
 */
module Sources {
  import opened Wrappers
  import opened Types

  /** The `web` part of a grounding chunk; either field may be missing. */
  datatype WebRef = WebRef(uri: Option<string>, title: Option<string>)
  datatype GroundingChunk = GroundingChunk(web: Option<WebRef>)

  const DefaultTitle := "Джерело"
  const MissingUri := "#"
  const MaxSources := 4

  /** `value || fallback`: a missing or empty string falls back. */
  function OrElse(value: Option<string>, fallback: string): (r: string)
    ensures value.Some? && value.value != "" ==> r == value.value
    ensures value.None? || value.value == "" ==> r == fallback
  {
    if value.Some? && value.value != "" then value.value else fallback
  }

  function ChunkToSource(chunk: GroundingChunk): Source {
    match chunk.web
    case None => Source(DefaultTitle, MissingUri)
    case Some(w) => Source(OrElse(w.title, DefaultTitle), OrElse(w.uri, MissingUri))
  }

  /** Chunks mapped to (title, uri), dropping those whose uri is missing. */
  function CandidateSources(chunks: seq<GroundingChunk>): (sources: seq<Source>)
    ensures |sources| <= |chunks|
    ensures forall k :: 0 <= k < |sources| ==> sources[k].uri != MissingUri && sources[k].uri != ""
    ensures forall k :: 0 <= k < |sources| ==> exists i :: 0 <= i < |chunks| && sources[k] == ChunkToSource(chunks[i])
    decreases |chunks|
  {
    if chunks == [] then []
    else
      var s := ChunkToSource(chunks[0]);
      var rest := CandidateSources(chunks[1..]);
      assert forall i :: 0 <= i < |chunks| - 1 ==> chunks[1..][i] == chunks[i + 1];
      if s.uri == MissingUri then rest else [s] + rest
  }

  /** A chunk whose web part carries a non-empty uri other than `#` always yields a candidate, with its title or the default one. */
  lemma {:induction false} CandidateKept(chunks: seq<GroundingChunk>, i: nat)
    requires i < |chunks| && chunks[i].web.Some?
    requires chunks[i].web.value.uri.Some? && chunks[i].web.value.uri.value !in {"", MissingUri}
    ensures ChunkToSource(chunks[i]) in CandidateSources(chunks)
    decreases i
  {
    if i > 0 {
      assert chunks[1..][i - 1] == chunks[i];
      CandidateKept(chunks[1..], i - 1);
    }
  }

  function UriSet(sources: seq<Source>): set<string> {
    set k | 0 <= k < |sources| :: sources[k].uri
  }

  /** Appending an entry adds its uri. */
  lemma UriSetAppend(sources: seq<Source>, s: Source)
    ensures UriSet(sources + [s]) == UriSet(sources) + {s.uri}
  {
    var all := sources + [s];
    forall u | u in UriSet(all) ensures u in UriSet(sources) + {s.uri} {
      var k :| 0 <= k < |all| && all[k].uri == u;
      if k < |sources| { assert all[k] == sources[k]; }
    }
    forall u | u in UriSet(sources) ensures u in UriSet(all) {
      var k :| 0 <= k < |sources| && sources[k].uri == u;
      assert all[k] == sources[k];
    }
    assert all[|sources|] == s;
  }

  /** `sources[j]` is the first entry with its uri. */
  predicate FirstOfItsUri(sources: seq<Source>, j: int)
    requires 0 <= j < |sources|
  {
    forall i :: 0 <= i < j ==> sources[i].uri != sources[j].uri
  }

  /**
   * Deduplication by uri, first seen wins, in order of first appearance: the entries kept
   * have distinct uris, and together they have every uri of the input.
   */
  function FirstSeen(sources: seq<Source>): (r: seq<Source>)
    ensures |r| <= |sources|
    ensures forall a, b :: 0 <= a < b < |r| ==> r[a].uri != r[b].uri
    ensures UriSet(r) == UriSet(sources)
    decreases |sources|
  {
    if sources == [] then []
    else
      var init := sources[..|sources| - 1];
      var last := sources[|sources| - 1];
      var prev := FirstSeen(init);
      assert sources == init + [last];
      UriSetAppend(init, last);
      if last.uri in UriSet(prev) then prev
      else
        UriSetAppend(prev, last);
        assert forall a :: 0 <= a < |prev| ==> prev[a].uri in UriSet(prev);
        prev + [last]
  }

  /** Every entry kept is the first entry of the input with its uri. */
  lemma {:induction false} FirstSeenKeepsFirsts(sources: seq<Source>)
    ensures forall k :: 0 <= k < |FirstSeen(sources)| ==>
              exists j :: 0 <= j < |sources| && sources[j] == FirstSeen(sources)[k] && FirstOfItsUri(sources, j)
    decreases |sources|
  {
    if sources == [] {
      assert FirstSeen(sources) == [];
    } else {
      var init := sources[..|sources| - 1];
      var last := sources[|sources| - 1];
      var prev := FirstSeen(init);
      var r := FirstSeen(sources);
      assert r == if last.uri in UriSet(prev) then prev else prev + [last];
      FirstSeenKeepsFirsts(init);
      forall k | 0 <= k < |FirstSeen(sources)|
        ensures exists j :: 0 <= j < |sources| && sources[j] == FirstSeen(sources)[k] && FirstOfItsUri(sources, j)
      {
        if k < |prev| {
          assert r[k] == prev[k];
          var j :| 0 <= j < |init| && init[j] == prev[k] && FirstOfItsUri(init, j);
          assert forall i :: 0 <= i < j ==> sources[i] == init[i];
          assert sources[j] == r[k] && FirstOfItsUri(sources, j);
        } else {
          assert r[k] == last && last.uri !in UriSet(prev);
          forall i | 0 <= i < |init| ensures sources[i].uri != last.uri {
            assert sources[i] == init[i];
            assert init[i].uri in UriSet(init);
          }
          assert sources[|init|] == r[k] && FirstOfItsUri(sources, |init|);
        }
      }
    }
  }

  /** Deduplication keeps order: what is kept from a prefix of the input is a prefix of what is kept from all of it. */
  lemma {:induction false} FirstSeenPrefix(sources: seq<Source>, n: nat)
    requires n <= |sources|
    ensures var p := FirstSeen(sources[..n]);
            |p| <= |FirstSeen(sources)| && FirstSeen(sources)[..|p|] == p
    decreases |sources| - n
  {
    if n < |sources| {
      FirstSeenPrefix(sources, n + 1);
      var m := sources[..n + 1];
      assert m[..|m| - 1] == sources[..n];
    } else {
      assert sources[..n] == sources;
    }
  }

  /** `Array.prototype.slice(0, n)`. */
  function Take<T>(s: seq<T>, n: nat): (r: seq<T>)
    ensures |r| <= n && |r| <= |s| && r == s[..|r|]
    ensures |s| <= n ==> r == s
    ensures |s| > n ==> |r| == n
  {
    if |s| <= n then s else s[..n]
  }

  /** The source list of a report, as a value. */
  function ReportSources(chunks: seq<GroundingChunk>): seq<Source> {
    Take(FirstSeen(CandidateSources(chunks)), MaxSources)
  }

  /** One more input entry is kept exactly when its uri is new. */
  lemma FirstSeenStep(sources: seq<Source>, i: nat)
    requires i < |sources|
    ensures FirstSeen(sources[..i + 1]) ==
              if sources[i].uri in UriSet(sources[..i]) then FirstSeen(sources[..i])
              else FirstSeen(sources[..i]) + [sources[i]]
  {
    var m := sources[..i + 1];
    assert m[..|m| - 1] == sources[..i];
    assert m[|m| - 1] == sources[i];
  }

  /**
   * The loop that removes duplicate uris through an insertion-ordered map from uri to
   * entry, represented by its entries in insertion order and the set of its keys.
   */
  method DedupeByUri(sources: seq<Source>) returns (entries: seq<Source>)
    ensures entries == FirstSeen(sources)
  {
    var keys: set<string> := {};
    entries := [];
    for i := 0 to |sources|
      invariant entries == FirstSeen(sources[..i])
      invariant keys == UriSet(entries)
    {
      var s := sources[i];
      FirstSeenStep(sources, i);
      if s.uri !in keys {
        UriSetAppend(entries, s);
        keys := keys + {s.uri};
        entries := entries + [s];
      }
    }
    assert sources[..|sources|] == sources;
  }

  /** The source list of a report: candidates without duplicates, cut to the first four. */
  method ExtractSources(chunks: seq<GroundingChunk>) returns (sources: seq<Source>)
    ensures sources == ReportSources(chunks)
  {
    var candidates := CandidateSources(chunks);
    var unique := DedupeByUri(candidates);
    sources := if |unique| <= MaxSources then unique else unique[..MaxSources];
  }

  /** A report cites at most four sources, under distinct uris, none of them missing. */
  lemma ReportSourcesShape(chunks: seq<GroundingChunk>)
    ensures var r := ReportSources(chunks);
            && |r| <= MaxSources
            && (forall a, b :: 0 <= a < b < |r| ==> r[a].uri != r[b].uri)
            && (forall k :: 0 <= k < |r| ==> r[k].uri != MissingUri && r[k].uri != "")
  {
    var c := CandidateSources(chunks);
    var f := FirstSeen(c);
    var r := Take(f, MaxSources);
    forall k | 0 <= k < |r| ensures r[k].uri != MissingUri && r[k].uri != "" {
      assert r[k] == f[k];
      assert f[k].uri in UriSet(f);
    }
  }

  /** With at most four distinct uris among the candidates, every one of them is cited. */
  lemma AllSourcesCitedWhenFew(chunks: seq<GroundingChunk>)
    requires |UriSet(CandidateSources(chunks))| <= MaxSources
    ensures UriSet(ReportSources(chunks)) == UriSet(CandidateSources(chunks))
  {
    var f := FirstSeen(CandidateSources(chunks));
    DistinctUrisCount(f);
    assert |f| <= MaxSources;
  }

  /** With more than four distinct uris among the candidates, the first four of them, in order of first appearance, are cited. */
  lemma FirstFourCitedWhenMany(chunks: seq<GroundingChunk>)
    requires |UriSet(CandidateSources(chunks))| > MaxSources
    ensures |ReportSources(chunks)| == MaxSources
    ensures ReportSources(chunks) == FirstSeen(CandidateSources(chunks))[..MaxSources]
  {
    var f := FirstSeen(CandidateSources(chunks));
    DistinctUrisCount(f);
    assert |f| > MaxSources;
  }

  /** Entries with distinct uris are as many as their uris. */
  lemma {:induction false} DistinctUrisCount(sources: seq<Source>)
    requires forall a, b :: 0 <= a < b < |sources| ==> sources[a].uri != sources[b].uri
    ensures |UriSet(sources)| == |sources|
    decreases |sources|
  {
    if sources != [] {
      var init := sources[..|sources| - 1];
      var last := sources[|sources| - 1];
      assert sources == init + [last];
      DistinctUrisCount(init);
      UriSetAppend(init, last);
      forall u | u in UriSet(init) ensures u != last.uri {
        var k :| 0 <= k < |init| && init[k].uri == u;
        assert sources[k] == init[k];
      }
    }
  }
}
