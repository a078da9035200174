/**
 * The choices the status screen (components/StatusDisplay.tsx) makes from a report: which
 * sources a filter shows, the label of a group card, the header text, the short label of
 * a source, the weather icon, and the rotation of the loading messages.
 */
module StatusDisplay {
  import opened Wrappers
  import opened Strings
  import opened Types
  import opened Sources
  import opened GeminiService

  // ---------------------------------------------------------------------------
  // The source filter

  datatype SourceFilter = ALL | TELEGRAM | WEB

  /** A source is a Telegram source when its uri mentions `t.me`. */
  predicate IsTelegram(s: Source) {
    Contains(s.uri, "t.me")
  }

  predicate Shown(filter: SourceFilter, s: Source) {
    match filter
    case ALL => true
    case TELEGRAM => IsTelegram(s)
    case WEB => !IsTelegram(s)
  }

  /** `data.sources.filter(...)`: the sources the filter shows, in their order. */
  function FilterSources(filter: SourceFilter, sources: seq<Source>): (r: seq<Source>)
    ensures |r| <= |sources|
    ensures forall k :: 0 <= k < |r| ==> Shown(filter, r[k]) && r[k] in sources
    ensures forall k :: 0 <= k < |sources| && Shown(filter, sources[k]) ==> sources[k] in r
    decreases |sources|
  {
    if sources == [] then []
    else
      var rest := FilterSources(filter, sources[1..]);
      assert forall k :: 1 <= k < |sources| ==> sources[k] == sources[1..][k - 1];
      if Shown(filter, sources[0]) then [sources[0]] + rest else rest
  }

  /** ALL shows every source, unchanged. */
  lemma {:induction false} FilterAllKeepsEverything(sources: seq<Source>)
    ensures FilterSources(ALL, sources) == sources
    decreases |sources|
  {
    if sources != [] {
      FilterAllKeepsEverything(sources[1..]);
    }
  }

  /** Filtering respects concatenation, so the relative order of the sources shown is kept. */
  lemma {:induction false} FilterConcat(filter: SourceFilter, a: seq<Source>, b: seq<Source>)
    ensures FilterSources(filter, a + b) == FilterSources(filter, a) + FilterSources(filter, b)
    decreases |a|
  {
    if a == [] {
      assert a + b == b;
    } else {
      assert (a + b)[1..] == a[1..] + b;
      FilterConcat(filter, a[1..], b);
    }
  }

  /** TELEGRAM and WEB split the sources between them: together they show each source exactly once. */
  lemma {:induction false} TelegramAndWebPartition(sources: seq<Source>)
    ensures multiset(FilterSources(TELEGRAM, sources)) + multiset(FilterSources(WEB, sources)) == multiset(sources)
    decreases |sources|
  {
    if sources != [] {
      TelegramAndWebPartition(sources[1..]);
      assert sources == [sources[0]] + sources[1..];
    }
  }

  // ---------------------------------------------------------------------------
  // Labels

  /** The label of a group card: MAYBE and UNKNOWN share the `МОЖЛИВІ` card. */
  function CardLabel(status: PowerStatus): (r: string)
    ensures r == "МОЖЛИВІ" <==> status.MAYBE? || status.UNKNOWN?
  {
    if status == ON then "СВІТЛО Є" else if status == OFF then "НЕМАЄ" else "МОЖЛИВІ"
  }

  /** The header over the report; MAYBE keeps the initial `ГРАФІКИ`. */
  function HeaderText(status: PowerStatus): (r: string)
    ensures r == "ПОМИЛКА" <==> status.UNKNOWN?
    ensures r == "ГРАФІКИ" <==> status.MAYBE?
  {
    if status == ON then "СВІТЛО Є"
    else if status == OFF then "БЛЕКАУТ"
    else if status == UNKNOWN then "ПОМИЛКА"
    else "ГРАФІКИ"
  }

  /**
   * The header tells every status apart, and the card only MAYBE from UNKNOWN not: two
   * statuses with the same header have the same card, and the same card means the same
   * status except for the MAYBE/UNKNOWN pair.
   */
  lemma HeaderFinerThanCard(a: PowerStatus, b: PowerStatus)
    ensures HeaderText(a) == HeaderText(b) <==> a == b
    ensures CardLabel(a) == CardLabel(b) <==> a == b || (a in {MAYBE, UNKNOWN} && b in {MAYBE, UNKNOWN})
  {
    assert HeaderText(a)[0] == HeaderText(b)[0] ==> a == b;
    assert CardLabel(a)[0] == CardLabel(b)[0] ==> CardLabel(a) == CardLabel(b);
  }

  /** The error header appears exactly for failed fetches: never over a report built from an answer. */
  lemma ErrorHeaderOnlyOnFailure(cityName: string, response: AiResponse, e: ApiError, t: int)
    ensures HeaderText(OutageReport(cityName, response, t).status) != "ПОМИЛКА"
    ensures HeaderText(ErrorReport(e, t).status) == "ПОМИЛКА"
  {
    ReportStatusKnown(cityName, response, t);
    HeaderFinerThanCard(OutageReport(cityName, response, t).status, UNKNOWN);
  }

  // ---------------------------------------------------------------------------
  // The short label of a source

  /** `title.replace(/(https?:\/\/)?(www\.)?/, '')`: the first match is always at the start. */
  function StripSchemeAndWww(title: string): (r: string)
    ensures |r| <= |title| && r == title[|title| - |r|..]
  {
    var t := if StartsWith(title, "https://") then title[8..]
             else if StartsWith(title, "http://") then title[7..]
             else title;
    StripPrefix(t, "www.")
  }

  /** The shown label: the title without scheme and `www.`, up to the first `/`. */
  function SourceLabel(title: string): (r: string)
    ensures '/' !in r
    ensures var t := StripSchemeAndWww(title);
              |r| <= |t| && r == t[..|r|] && (|r| == |t| || t[|r|] == '/')
  {
    var parts := Split(StripSchemeAndWww(title), "/");
    ContainsChar(parts[0], '/');
    SplitHead(StripSchemeAndWww(title), '/');
    parts[0]
  }

  /** A title without a slash and without the `www.` prefix is shown as it is. */
  lemma PlainTitleUnchanged(title: string)
    requires '/' !in title && !StartsWith(title, "www.")
    ensures SourceLabel(title) == title
  {
    assert !StartsWith(title, "https://") by { assert "https://"[6] == '/'; }
    assert !StartsWith(title, "http://") by { assert "http://"[5] == '/'; }
    SplitNone(title, '/');
  }

  /** An optional `www.` in front of a host that does not itself start with `www.` is dropped, once. */
  lemma StripWww(www: string, host: string, path: string)
    requires www in {"www.", ""}
    requires '/' !in host && !StartsWith(host, "www.")
    requires path == "" || path[0] == '/'
    ensures StripPrefix(www + host + path, "www.") == host + path
  {
    var rest := host + path;
    if www == "" {
      assert www + host + path == rest;
      assert !StartsWith(rest, "www.") by {
        if |host| < 4 {
          if path != "" {
            assert rest[|host|] == '/' && "www."[|host|] != '/';
          }
        } else {
          assert rest[..4] == host[..4];
        }
      }
    } else {
      assert www + host + path == "www." + rest;
    }
  }

  /** The prefix up to the first `/` of a host followed by nothing or by a `/` is the host. */
  lemma PrefixBeforeSlash(host: string, path: string, r: string)
    requires '/' !in host && (path == "" || path[0] == '/')
    requires '/' !in r && |r| <= |host + path| && r == (host + path)[..|r|]
    requires |r| == |host + path| || (host + path)[|r|] == '/'
    ensures r == host
  {
    var t := host + path;
    // No `/` inside the host, and one right after it whenever anything follows.
    assert forall i :: 0 <= i < |host| ==> t[i] == host[i] != '/';
    assert path != "" ==> t[|host|] == '/';
    assert |r| == |host|;
    assert t[..|host|] == host;
  }

  /**
   * The label of a web address is its host name, whatever the scheme and the `www.`, with
   * or without a path after the host.
   */
  lemma LabelOfAddress(scheme: string, www: string, host: string, path: string)
    requires scheme in {"http://", "https://"} && www in {"www.", ""}
    requires '/' !in host && !StartsWith(host, "www.")
    requires path == "" || path[0] == '/'
    ensures SourceLabel(scheme + www + host + path) == host
  {
    var title := scheme + www + host + path;
    assert StripSchemeAndWww(title) == host + path by {
      var rest := www + host + path;
      assert title == scheme + rest;
      assert StartsWith(title, scheme);
      assert scheme == "http://" ==> !StartsWith(title, "https://") by {
        if scheme == "http://" {
          assert title[4] == ':';
        }
      }
      assert StripSchemeAndWww(title) == StripPrefix(rest, "www.");
      StripWww(www, host, path);
    }
    PrefixBeforeSlash(host, path, SourceLabel(title));
  }

  // ---------------------------------------------------------------------------
  // The weather icon

  datatype WeatherIcon = Rain | Snow | Cloud | Sun

  predicate MentionsRain(c: string) { Contains(c, "rain") || Contains(c, "дощ") }
  predicate MentionsSnow(c: string) { Contains(c, "snow") || Contains(c, "сніг") }
  predicate MentionsCloud(c: string) { Contains(c, "cloud") || Contains(c, "хмар") }

  /** `WeatherIcon`: rain before snow before cloud, the sun otherwise, on the lower-cased condition. */
  function WeatherClass(condition: string): (r: WeatherIcon)
    ensures r == Rain <==> MentionsRain(ToLower(condition))
    ensures r == Snow <==> !MentionsRain(ToLower(condition)) && MentionsSnow(ToLower(condition))
    ensures r == Cloud <==>
              !MentionsRain(ToLower(condition)) && !MentionsSnow(ToLower(condition)) && MentionsCloud(ToLower(condition))
    ensures r == Sun <==>
              !MentionsRain(ToLower(condition)) && !MentionsSnow(ToLower(condition)) && !MentionsCloud(ToLower(condition))
  {
    var c := ToLower(condition);
    if MentionsRain(c) then Rain
    else if MentionsSnow(c) then Snow
    else if MentionsCloud(c) then Cloud
    else Sun
  }

  /** The icon does not depend on letter case. */
  lemma WeatherIgnoresCase(condition: string)
    ensures WeatherClass(ToLower(condition)) == WeatherClass(condition)
  {
    ToLowerIdempotent(condition);
  }

  // ---------------------------------------------------------------------------
  // Loading messages

  const LoadingMessages: seq<string> := ["З'єднання...", "Пошук даних...", "Аналіз...", "Оновлення..."]

  /** The interval's updater `i => (i + 1) % loadingMessages.length`. */
  function NextMessageIndex(i: int): (r: int)
    ensures i >= -1 ==> 0 <= r < |LoadingMessages|
  {
    JsRem(i + 1, |LoadingMessages|)
  }

  /** The index after `n` ticks from the initial 0. */
  function MessageIndexAfter(n: nat): int
    decreases n
  {
    if n == 0 then 0 else NextMessageIndex(MessageIndexAfter(n - 1))
  }

  /** The messages take turns in order: after `n` ticks the `n mod 4`-th one is shown, always a valid index. */
  lemma {:induction false} MessagesRotate(n: nat)
    ensures MessageIndexAfter(n) == n % |LoadingMessages|
    decreases n
  {
    if n > 0 {
      MessagesRotate(n - 1);
    }
  }
}
