/**
 * The application shell (App.tsx, constants.ts): the list of cities, the countdown shown
 * until the next automatic refresh, and the component state that loading, refreshing,
 * choosing a city and restoring the saved city update.
 *
 * The fetches are function-valued parameters, and one completed load is one atomic step;
 * the browser's storage is the field `savedCityId`.
 */
module App {
  import opened Wrappers
  import opened Strings
  import opened Types

  // ---------------------------------------------------------------------------
  // Cities

  datatype City = City(id: string, nameUk: string, nameEn: string, region: string)

  const Cities: seq<City> := [
    City("kyiv", "Київ", "Kyiv", "Київська область"),
    City("kharkiv", "Харків", "Kharkiv", "Харківська область"),
    City("odesa", "Одеса", "Odesa", "Одеська область"),
    City("dnipro", "Дніпро", "Dnipro", "Дніпропетровська область"),
    City("lviv", "Львів", "Lviv", "Львівська область"),
    City("zaporizhzhia", "Запоріжжя", "Zaporizhzhia", "Запорізька область"),
    City("vinnytsia", "Вінниця", "Vinnytsia", "Вінницька область"),
    City("poltava", "Полтава", "Poltava", "Полтавська область"),
    City("mykolaiv", "Миколаїв", "Mykolaiv", "Миколаївська область"),
    City("chernihiv", "Чернігів", "Chernihiv", "Чернігівська область"),
    City("sumy", "Суми", "Sumy", "Сумська область"),
    City("khmelnytskyi", "Хмельницький", "Khmelnytskyi", "Хмельницька область"),
    City("cherkasy", "Черкаси", "Cherkasy", "Черкаська область"),
    City("chernivtsi", "Чернівці", "Chernivtsi", "Чернівецька область"),
    City("zhytomyr", "Житомир", "Zhytomyr", "Житомирська область"),
    City("rivne", "Рівне", "Rivne", "Рівненська область"),
    City("ivano-frankivsk", "Івано-Франківськ", "Ivano-Frankivsk", "Івано-Франківська область"),
    City("ternopil", "Тернопіль", "Ternopil", "Тернопільська область"),
    City("lutsk", "Луцьк", "Lutsk", "Волинська область"),
    City("uzhhorod", "Ужгород", "Uzhhorod", "Закарпатська область")
  ]

  /** Milliseconds between automatic refreshes. */
  const AutoRefreshInterval := 30 * 60 * 1000
  /** The countdown's starting value, in seconds. */
  const CountdownReset := AutoRefreshInterval / 1000

  /** `cities.some(c => c.id === id)`. */
  predicate HasCityIn(cities: seq<City>, id: string) {
    exists k :: 0 <= k < |cities| && cities[k].id == id
  }

  /** `cities.find(c => c.id === id)`: the first city with that id, if any. */
  function FindCityIn(cities: seq<City>, id: string): (r: Option<City>)
    ensures r.None? <==> !HasCityIn(cities, id)
    ensures r.Some? ==> exists k :: 0 <= k < |cities| && cities[k] == r.value && r.value.id == id
                                     && forall j :: 0 <= j < k ==> cities[j].id != id
    decreases |cities|
  {
    if cities == [] then None
    else if cities[0].id == id then Some(cities[0])
    else
      var r := FindCityIn(cities[1..], id);
      assert forall j :: 1 <= j < |cities| ==> cities[j] == cities[1..][j - 1];
      r
  }

  // ---------------------------------------------------------------------------
  // The countdown display

  /** `formatCountdown`: `--:--` without a countdown, else minutes, a colon and the seconds, padded below ten. */
  function FormatCountdown(seconds: Option<int>): (r: string)
    ensures r == "--:--" <==> seconds.None?
  {
    match seconds
    case None => "--:--"
    case Some(t) =>
      var minutes := IntToString(t / 60);
      var r := minutes + ":" + SecondsField(JsRem(t, 60));
      // The minutes are digits after at most one minus sign, so the text never starts with `--`.
      assert r[0] == minutes[0] && (|minutes| >= 2 ==> r[1] == minutes[1]) && (|minutes| == 1 ==> r[1] == ':');
      assert t / 60 < 0 ==> minutes[1] == NatToString(-(t / 60))[0];
      assert r[..2] != "--";
      r
  }

  /** The seconds after the colon: a `0` in front of any value below ten. */
  function SecondsField(s: int): string {
    (if s < 10 then "0" else "") + IntToString(s)
  }

  /** Reads a clock `m:ss` back into seconds; anything else is rejected. */
  function ParseClock(text: string): Option<nat> {
    ClockOfFields(Split(text, ":"))
  }

  /** Minutes and a two-digit seconds field under 60, as seconds. */
  function ClockOfFields(fields: seq<string>): Option<nat> {
    if |fields| != 2 || fields[0] == "" || |fields[1]| != 2 || !AllDigits(fields[0]) || !AllDigits(fields[1]) then None
    else if DigitsValue(fields[1]) >= 60 then None
    else Some(DigitsValue(fields[0]) * 60 + DigitsValue(fields[1]))
  }

  /** The two-character seconds field of a clock. */
  lemma PaddedSeconds(s: nat)
    requires s < 60
    ensures |SecondsField(s)| == 2 && AllDigits(SecondsField(s)) && DigitsValue(SecondsField(s)) == s
  {
    var pad := SecondsField(s);
    NatToStringRoundTrip(s);
    if s < 10 {
      assert pad[..1] == "0";
    } else {
      assert NatToString(s) == NatToString(s / 10) + [Digit(s % 10)];
    }
  }

  /** A clock of digits, a colon and two digits under 60 is read as minutes times 60 plus seconds. */
  lemma {:induction false} ParseClockOf(minutes: string, pad: string)
    requires minutes != "" && AllDigits(minutes) && |pad| == 2 && AllDigits(pad) && DigitsValue(pad) < 60
    ensures ParseClock(minutes + [':'] + pad) == Some(DigitsValue(minutes) * 60 + DigitsValue(pad))
  {
    assert ClockOfFields([minutes, pad]) == Some(DigitsValue(minutes) * 60 + DigitsValue(pad));
    assert Split(minutes + [':'] + pad, ":") == [minutes, pad] by {
      assert ':' !in minutes;
      assert ':' !in pad;
      SplitFirst(minutes, ':', pad);
      SplitNone(pad, ':');
    }
  }

  /** For a non-negative count, the display is the minutes, a colon and the padded seconds. */
  lemma FormatCountdownOf(t: nat)
    ensures FormatCountdown(Some(t)) == NatToString(t / 60) + [':'] + SecondsField(t % 60)
  {
  }

  /** Every countdown the display can show reads back as the number of seconds it shows. */
  lemma {:induction false} CountdownRoundTrip(t: nat)
    ensures ParseClock(FormatCountdown(Some(t))) == Some(t)
  {
    FormatCountdownOf(t);
    PaddedSeconds(t % 60);
    NatToStringRoundTrip(t / 60);
    ParseClockOf(NatToString(t / 60), SecondsField(t % 60));
  }

  /** The full interval shows as `30:00`, and a minute and five seconds as `1:05`. */
  lemma CountdownExamples()
    ensures FormatCountdown(Some(CountdownReset)) == "30:00"
    ensures FormatCountdown(Some(65)) == "1:05"
    ensures FormatCountdown(None) == "--:--"
  {
  }

  // ---------------------------------------------------------------------------
  // The countdown step

  /** What one tick of the interval does: the next countdown, and whether the city reloads. */
  datatype Step = Step(next: Option<int>, reload: bool)

  /** The interval's state updater. */
  function CountdownStep(prev: Option<int>): (r: Step)
    ensures r.reload <==> prev.Some? && prev.value <= 1
  {
    match prev
    case Some(p) => if p <= 1 then Step(Some(CountdownReset), true) else Step(Some(p - 1), false)
    case None => Step(None, false)
  }

  /** Once set, the countdown stays within 1..CountdownReset; an unset countdown stays unset. */
  lemma CountdownStaysInRange(prev: Option<int>)
    ensures prev.None? ==> CountdownStep(prev) == Step(None, false)
    ensures prev.Some? && 1 <= prev.value <= CountdownReset ==>
              CountdownStep(prev).next.Some? && 1 <= CountdownStep(prev).next.value <= CountdownReset
  {
  }

  /** Where the countdown is after `n` ticks, and how many reloads the ticks triggered. */
  datatype Progress = Progress(countdown: Option<int>, reloads: nat)

  function Run(start: Option<int>, n: nat): Progress
    decreases n
  {
    if n == 0 then Progress(start, 0)
    else
      var p := Run(start, n - 1);
      var step := CountdownStep(p.countdown);
      Progress(step.next, p.reloads + if step.reload then 1 else 0)
  }

  /** One more tick either completes an interval, leaving no rest, or adds one to the rest. */
  lemma NextTickDivision(n: nat)
    requires n > 0
    ensures (n - 1) % CountdownReset == CountdownReset - 1 ==>
              n / CountdownReset == (n - 1) / CountdownReset + 1 && n % CountdownReset == 0
    ensures (n - 1) % CountdownReset < CountdownReset - 1 ==>
              n / CountdownReset == (n - 1) / CountdownReset && n % CountdownReset == (n - 1) % CountdownReset + 1
  {
    var q := (n - 1) / CountdownReset;
    var r := (n - 1) % CountdownReset;
    assert n == q * CountdownReset + r + 1;
    if r == CountdownReset - 1 {
      assert n == (q + 1) * CountdownReset;
    }
  }

  /**
   * From a fresh countdown, the city reloads once every CountdownReset ticks: after `n`
   * ticks there have been `n / CountdownReset` reloads and the countdown shows the rest.
   */
  lemma {:induction false} ReloadEveryInterval(n: nat)
    ensures Run(Some(CountdownReset), n) == Progress(Some(CountdownReset - n % CountdownReset), n / CountdownReset)
    decreases n
  {
    if n > 0 {
      ReloadEveryInterval(n - 1);
      NextTickDivision(n);
    }
  }

  // ---------------------------------------------------------------------------
  // The component state

  /** What a load makes of the shown report: the fetched one when the id names a city, else the old one. */
  function Loaded(previous: Option<OutageInfo>, cities: seq<City>, cityId: string, fetch: string -> OutageInfo): Option<OutageInfo> {
    match FindCityIn(cities, cityId)
    case Some(city) => Some(fetch(city.nameUk))
    case None => previous
  }

  class AppState {
    /** The city list the component looks ids up in. */
    const cities: seq<City>
    var selectedCityId: string
    /** The id kept in local storage under `svitlo_city_id`. */
    var savedCityId: Option<string>
    var outageData: Option<OutageInfo>
    var newsData: Option<NewsResult>
    var loading: bool
    var newsLoading: bool
    var countdown: Option<int>
    var showNews: bool

    /** Once set, the countdown lies within 1..CountdownReset. */
    predicate Valid()
      reads this
    {
      countdown.None? || 1 <= countdown.value <= CountdownReset
    }

    /** The initial state; the storage content is what the browser kept from an earlier visit. */
    constructor(stored: Option<string>)
      ensures Valid() && cities == Cities
      ensures selectedCityId == "" && savedCityId == stored
      ensures outageData.None? && newsData.None? && countdown.None?
      ensures !loading && !newsLoading && !showNews
    {
      cities := Cities;
      selectedCityId := "";
      savedCityId := stored;
      outageData := None;
      newsData := None;
      loading := false;
      newsLoading := false;
      countdown := None;
      showNews := false;
    }

    /** The part of `loadData` before the fetch: nothing for an empty id, else `loading` and the city to fetch. */
    method BeginLoad(cityId: string) returns (city: Option<City>)
      modifies this
      ensures cityId == "" ==> city.None? && unchanged(this)
      ensures cityId != "" ==> city == FindCityIn(cities, cityId) && loading
      ensures selectedCityId == old(selectedCityId) && savedCityId == old(savedCityId)
      ensures outageData == old(outageData) && newsData == old(newsData) && countdown == old(countdown)
      ensures newsLoading == old(newsLoading) && showNews == old(showNews)
    {
      if cityId == "" {
        city := None;
        return;
      }
      loading := true;
      city := FindCityIn(cities, cityId);
    }

    /** The part of `loadData` after the fetch: store the report if there is one, stop loading, restart the countdown. */
    method CompleteLoad(data: Option<OutageInfo>)
      requires Valid()
      modifies this
      ensures Valid()
      ensures outageData == (if data.Some? then data else old(outageData))
      ensures !loading && countdown == Some(CountdownReset)
      ensures selectedCityId == old(selectedCityId) && savedCityId == old(savedCityId) && newsData == old(newsData)
      ensures newsLoading == old(newsLoading) && showNews == old(showNews)
    {
      if data.Some? {
        outageData := data;
      }
      loading := false;
      countdown := Some(CountdownReset);
    }

    /** `loadData` as one step: an empty id changes nothing; otherwise the report of a known city is replaced. */
    method LoadData(cityId: string, fetch: string -> OutageInfo)
      requires Valid()
      modifies this
      ensures Valid()
      ensures cityId == "" ==> unchanged(this)
      ensures cityId != "" ==>
                outageData == Loaded(old(outageData), cities, cityId, fetch) && !loading && countdown == Some(CountdownReset)
      ensures selectedCityId == old(selectedCityId) && savedCityId == old(savedCityId) && newsData == old(newsData)
      ensures newsLoading == old(newsLoading) && showNews == old(showNews)
    {
      var city := BeginLoad(cityId);
      if cityId != "" {
        var data := if city.Some? then Some(fetch(city.value.nameUk)) else None;
        CompleteLoad(data);
      }
    }

    /** `loadNews`: with a city selected, open the news panel and fetch its digest. */
    method LoadNews(fetchNews: string -> NewsResult)
      modifies this
      ensures old(selectedCityId) == "" ==> unchanged(this)
      ensures old(selectedCityId) != "" ==> showNews && !newsLoading
      ensures old(selectedCityId) != "" ==>
                newsData == (match FindCityIn(cities, selectedCityId)
                             case Some(city) => Some(fetchNews(city.nameUk))
                             case None => old(newsData))
      ensures selectedCityId == old(selectedCityId) && savedCityId == old(savedCityId) && outageData == old(outageData)
      ensures loading == old(loading) && countdown == old(countdown)
    {
      if selectedCityId == "" {
        return;
      }
      newsLoading := true;
      showNews := true;
      var city := FindCityIn(cities, selectedCityId);
      if city.Some? {
        newsData := Some(fetchNews(city.value.nameUk));
      }
      newsLoading := false;
    }

    /** `setSelectedCityId` and the effect it triggers when the id changes to a non-empty one. */
    method SelectCity(id: string, fetch: string -> OutageInfo)
      requires Valid()
      modifies this
      ensures Valid()
      ensures id == old(selectedCityId) ==> unchanged(this)
      ensures id != old(selectedCityId) ==> selectedCityId == id
      ensures id != old(selectedCityId) && id == "" ==>
                savedCityId == old(savedCityId) && outageData == old(outageData) && newsData == old(newsData)
                && loading == old(loading) && countdown == old(countdown)
      ensures id != old(selectedCityId) && id != "" ==>
                savedCityId == Some(id) && outageData == Loaded(old(outageData), cities, id, fetch) && newsData.None?
                && !loading && countdown == Some(CountdownReset)
      ensures newsLoading == old(newsLoading) && showNews == old(showNews)
    {
      if id == selectedCityId {
        return;
      }
      selectedCityId := id;
      if id != "" {
        savedCityId := Some(id);
        LoadData(id, fetch);
        countdown := Some(CountdownReset);
        newsData := None;
      }
    }

    /** The start-up effect: adopt the stored id only when it names one of the cities. */
    method RestoreSavedCity(fetch: string -> OutageInfo)
      requires Valid() && selectedCityId == ""
      modifies this
      ensures Valid()
      ensures !(old(savedCityId).Some? && old(savedCityId).value != "" && HasCityIn(cities, old(savedCityId).value)) ==>
                unchanged(this)
      ensures old(savedCityId).Some? && old(savedCityId).value != "" && HasCityIn(cities, old(savedCityId).value) ==>
                selectedCityId == old(savedCityId).value && savedCityId == old(savedCityId)
                && outageData == Loaded(old(outageData), cities, selectedCityId, fetch) && newsData.None?
                && !loading && countdown == Some(CountdownReset)
      ensures newsLoading == old(newsLoading) && showNews == old(showNews)
    {
      var saved := savedCityId;
      if saved.Some? && saved.value != "" && FindCityIn(cities, saved.value).Some? {
        SelectCity(saved.value, fetch);
      }
    }

    /** `handleRefresh`: reload only with a city selected and no load in progress. */
    method HandleRefresh(fetch: string -> OutageInfo)
      requires Valid()
      modifies this
      ensures Valid()
      ensures old(selectedCityId) == "" || old(loading) ==> unchanged(this)
      ensures old(selectedCityId) != "" && !old(loading) ==>
                outageData == Loaded(old(outageData), cities, selectedCityId, fetch) && !loading && countdown == Some(CountdownReset)
      ensures selectedCityId == old(selectedCityId) && savedCityId == old(savedCityId) && newsData == old(newsData)
      ensures newsLoading == old(newsLoading) && showNews == old(showNews)
    {
      if selectedCityId != "" && !loading {
        LoadData(selectedCityId, fetch);
      }
    }

    /** One second of the interval, which runs only while a city is selected. */
    method Tick(fetch: string -> OutageInfo)
      requires Valid()
      modifies this
      ensures Valid()
      ensures old(selectedCityId) == "" ==> unchanged(this)
      ensures old(selectedCityId) != "" ==> countdown == CountdownStep(old(countdown)).next
      ensures old(selectedCityId) != "" && CountdownStep(old(countdown)).reload ==>
                outageData == Loaded(old(outageData), cities, selectedCityId, fetch) && !loading
      ensures !(old(selectedCityId) != "" && CountdownStep(old(countdown)).reload) ==>
                outageData == old(outageData) && loading == old(loading)
      ensures selectedCityId == old(selectedCityId) && savedCityId == old(savedCityId) && newsData == old(newsData)
      ensures newsLoading == old(newsLoading) && showNews == old(showNews)
    {
      if selectedCityId == "" {
        return;
      }
      var step := CountdownStep(countdown);
      if step.reload {
        LoadData(selectedCityId, fetch);
      }
      countdown := step.next;
    }
  }
}
