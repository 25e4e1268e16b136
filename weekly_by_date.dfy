/** The `/weekly-temperatures` handler that Express dispatches to
    (backend/routes/weatherRoutes.js, the first registration of the route):
    it fetches the city's readings of the trailing week, groups them by UTC
    date in a dictionary, and answers one summary per date with the average,
    minimum and maximum of that day's raw temperatures. */
module WeeklyByDate {
  import opened TimeKeys
  import opened Stats
  import opened WeatherData

  /** An entry of `temperatureDataByDate`: the readings pushed so far and the
      condition of the reading that created the entry. */
  datatype DayGroup = DayGroup(dailyTemp: seq<Reading>, dominantWeather: Option<string>)

  /** One element of the response array. The temperatures are the values
      that `toFixed(2)` then renders. */
  datatype DaySummary = DaySummary(
    date: DateKey,
    avgTemp: real,
    minTemp: real,
    maxTemp: real,
    dominantWeather: Option<string>,
    dailyTemp: seq<Reading>)

  /** One turn of the `forEach`: create the date's entry, with no readings
      and this reading's condition, if the date is new; then push the
      reading onto it. */
  function PushReading(groups: map<DateKey, DayGroup>, r: Reading): map<DateKey, DayGroup>
  {
    var date := DateOf(r);
    var created := if date in groups then groups else groups[date := DayGroup([], r.dominantWeather)];
    created[date := created[date].(dailyTemp := created[date].dailyTemp + [r])]
  }

  /** `temperatureDataByDate` once the `forEach` has handled `rs`. */
  function GroupsOf(rs: seq<Reading>): map<DateKey, DayGroup>
  {
    if rs == [] then map[] else PushReading(GroupsOf(rs[..|rs| - 1]), rs[|rs| - 1])
  }

  /** The `forEach` that fills `temperatureDataByDate`. `dates` is the order
      in which the dictionary acquires its keys, which is the order
      `Object.keys` returns them in, since date strings are not
      integer-like. */
  method GroupByDate(rs: seq<Reading>) returns (dates: seq<DateKey>, groups: map<DateKey, DayGroup>)
    ensures dates == DayKeys(rs)
    ensures groups == GroupsOf(rs)
    ensures forall d :: d in groups <==> d in dates
  {
    dates, groups := [], map[];
    for i := 0 to |rs|
      invariant dates == DayKeys(rs[..i])
      invariant groups == GroupsOf(rs[..i])
      invariant forall d :: d in groups <==> d in dates
    {
      var reading := rs[i];
      var date := DateOf(reading);
      assert rs[..i + 1][..i] == rs[..i];
      if date !in groups {
        groups := groups[date := DayGroup([], reading.dominantWeather)];
        dates := dates + [date];
      }
      groups := groups[date := groups[date].(dailyTemp := groups[date].dailyTemp + [reading])];
    }
    assert rs[..|rs|] == rs;
  }

  /** The dictionary holds an entry for exactly the dates that have
      readings; each entry lists that date's readings in input order and
      keeps the condition of the first of them. */
  lemma {:induction false} GroupsOfEntry(rs: seq<Reading>, d: DateKey)
    ensures d in GroupsOf(rs) <==> ReadingsOn(rs, d) != []
    ensures d in GroupsOf(rs) ==>
      GroupsOf(rs)[d] == DayGroup(ReadingsOn(rs, d), ReadingsOn(rs, d)[0].dominantWeather)
  {
    if rs != [] {
      var init := rs[..|rs| - 1];
      GroupsOfEntry(init, d);
      var g := ReadingsOn(init, d);
      if d == DateOf(rs[|rs| - 1]) && g != [] {
        assert (g + [rs[|rs| - 1]])[0] == g[0];
      }
    }
  }

  /** The response element built from one dictionary entry. */
  function Summarize(date: DateKey, g: DayGroup): DaySummary
    requires g.dailyTemp != []
  {
    var temps := Temps(g.dailyTemp);
    DaySummary(date, Mean(temps), Min(temps), Max(temps), g.dominantWeather, g.dailyTemp)
  }

  /** `Object.keys(temperatureDataByDate).map(...)`. */
  function BuildResponse(dates: seq<DateKey>, groups: map<DateKey, DayGroup>): seq<DaySummary>
    requires forall d :: d in dates ==> d in groups && groups[d].dailyTemp != []
  {
    seq(|dates|, i requires 0 <= i < |dates| => Summarize(dates[i], groups[dates[i]]))
  }

  /** What the handler answers for a list of fetched readings, stated
      without the dictionary: one summary per date in order of first
      appearance, over that date's readings. */
  function WeeklyReport(rs: seq<Reading>): seq<DaySummary>
  {
    DayKeysListsDates(rs);
    var keys := DayKeys(rs);
    seq(|keys|, i requires 0 <= i < |keys| =>
      var g := ReadingsOn(rs, keys[i]);
      Summarize(keys[i], DayGroup(g, g[0].dominantWeather)))
  }

  /** The handler's answer, stated without the dictionary. */
  function WeeklyResponse(city: Option<string>, stored: seq<Reading>, now: int, offsetMs: int): Response<seq<DaySummary>>
  {
    if CityMissing(city) then BadRequest
    else
      var fetched := FetchWeek(city.value, stored, now, offsetMs);
      if fetched == [] then NotFound else Ok(WeeklyReport(fetched))
  }

  /** The route handler: the 400 guard, the query, the 404 guard, the
      grouping loop and the response shaping. `now` is the handler's
      `new Date()` and `offsetMs` the host timezone. */
  method WeeklyTemperatures(city: Option<string>, stored: seq<Reading>, now: int, offsetMs: int)
    returns (resp: Response<seq<DaySummary>>)
    ensures resp == WeeklyResponse(city, stored, now, offsetMs)
  {
    if CityMissing(city) {
      return BadRequest;
    }
    var weeklyTemperatures := FetchWeek(city.value, stored, now, offsetMs);
    if |weeklyTemperatures| == 0 {
      return NotFound;
    }
    var dates, groups := GroupByDate(weeklyTemperatures);
    ReportFromDictionary(weeklyTemperatures);
    resp := Ok(BuildResponse(dates, groups));
  }

  /** Shaping the dictionary the loop fills gives the report: every listed
      date has a non-empty entry, and the summaries agree one by one. */
  lemma ReportFromDictionary(rs: seq<Reading>)
    ensures forall d :: d in DayKeys(rs) ==> d in GroupsOf(rs) && GroupsOf(rs)[d].dailyTemp != []
    ensures BuildResponse(DayKeys(rs), GroupsOf(rs)) == WeeklyReport(rs)
  {
    var keys, groups := DayKeys(rs), GroupsOf(rs);
    DayKeysListsDates(rs);
    forall d | d in keys
      ensures d in groups && ReadingsOn(rs, d) != []
      ensures groups[d] == DayGroup(ReadingsOn(rs, d), ReadingsOn(rs, d)[0].dominantWeather)
    {
      GroupsOfEntry(rs, d);
    }
    var built, report := BuildResponse(keys, groups), WeeklyReport(rs);
    assert |built| == |report|;
    forall i | 0 <= i < |keys|
      ensures built[i] == report[i]
    {
      assert keys[i] in keys;
    }
  }

  /** 400 exactly when the city is missing; 404 exactly when the city is
      given and no stored reading of that city lies in the trailing week;
      otherwise a report of the fetched readings. */
  lemma WeeklyResponseStatus(city: Option<string>, stored: seq<Reading>, now: int, offsetMs: int)
    ensures var resp := WeeklyResponse(city, stored, now, offsetMs);
      var start := StartOfLastWeek(now, offsetMs);
      && (resp.BadRequest? <==> CityMissing(city))
      && (resp.NotFound? <==>
            !CityMissing(city) &&
            forall r :: r in stored ==> !(r.city == city.value && start <= r.timestamp <= now))
      && !resp.ServerError?
      && (resp.Ok? ==> resp.body == WeeklyReport(FetchWeek(city.value, stored, now, offsetMs)))
  {
    if !CityMissing(city) {
      var fetched := FetchWeek(city.value, stored, now, offsetMs);
      if fetched != [] {
        assert fetched[0] in fetched;
      }
    }
  }

  /** The report has exactly one entry per date that has readings, and no
      other, listed in the order in which the dates first appear. */
  lemma WeeklyReportDates(rs: seq<Reading>)
    ensures var report := WeeklyReport(rs);
      && |report| == |DayKeys(rs)|
      && (forall i, j :: 0 <= i < j < |report| ==> report[i].date != report[j].date)
      && (forall i :: 0 <= i < |report| ==> ReadingsOn(rs, report[i].date) != [])
      && (forall r :: r in rs ==> exists i :: 0 <= i < |report| && report[i].date == DateOf(r))
      && (forall i, j :: 0 <= i < j < |report| ==>
            FirstIndex(rs, report[i].date) < FirstIndex(rs, report[j].date))
  {
    var report, keys := WeeklyReport(rs), DayKeys(rs);
    DayKeysListsDates(rs);
    assert forall i :: 0 <= i < |report| ==> report[i].date == keys[i];
    forall r | r in rs
      ensures exists i :: 0 <= i < |report| && report[i].date == DateOf(r)
    {
      ReadingsOnMembers(rs, DateOf(r));
      assert r in ReadingsOn(rs, DateOf(r));
      var i :| 0 <= i < |keys| && keys[i] == DateOf(r);
      assert report[i].date == DateOf(r);
    }
    DayKeysInFirstAppearanceOrder(rs);
  }

  /** Each entry lists its day's readings in input order, takes its
      condition from the day's first reading, and its average is the sum
      over the length, lying between a minimum and a maximum that are each
      some reading's temperature of that day. */
  lemma WeeklyReportEntry(rs: seq<Reading>, i: nat)
    requires i < |DayKeys(rs)|
    ensures var e := WeeklyReport(rs)[i];
      var temps := Temps(e.dailyTemp);
      && e.dailyTemp == ReadingsOn(rs, e.date) != []
      && e.dominantWeather == rs[FirstIndex(rs, e.date)].dominantWeather
      && e.avgTemp == Sum(temps) / (|temps| as real)
      && (exists r :: r in e.dailyTemp && r.temperature == e.minTemp)
      && (exists r :: r in e.dailyTemp && r.temperature == e.maxTemp)
      && (forall r :: r in e.dailyTemp ==> e.minTemp <= r.temperature <= e.maxTemp)
      && e.minTemp <= e.avgTemp <= e.maxTemp
  {
    var e := WeeklyReport(rs)[i];
    var g := ReadingsOn(rs, e.date);
    var temps := Temps(g);
    GroupStartsAtFirstReading(rs, e.date);
    MeanBetweenMinMax(temps);
    var k :| 0 <= k < |temps| && temps[k] == e.minTemp;
    assert g[k] in g;
    var m :| 0 <= m < |temps| && temps[m] == e.maxTemp;
    assert g[m] in g;
    forall r | r in g
      ensures e.minTemp <= r.temperature <= e.maxTemp
    {
      var j :| 0 <= j < |g| && g[j] == r;
      assert temps[j] in temps;
    }
  }

  /** Concatenating the entries' readings gives back the fetched readings,
      each exactly as often: every reading lands in exactly one day. */
  lemma WeeklyReportPartition(rs: seq<Reading>)
    ensures multiset(AllDailyTemps(WeeklyReport(rs))) == multiset(rs)
  {
    var keys := DayKeys(rs);
    DayKeysListsDates(rs);
    ReportConcat(rs, keys);
    GroupsPartitionReadings(rs);
  }

  /** The entries' temperatures, taken together, are the week's
      temperatures reordered: they add up to the same total. */
  lemma WeeklyReportTemps(rs: seq<Reading>)
    ensures multiset(Temps(AllDailyTemps(WeeklyReport(rs)))) == multiset(Temps(rs))
    ensures Sum(Temps(AllDailyTemps(WeeklyReport(rs)))) == Sum(Temps(rs))
  {
    WeeklyReportPartition(rs);
    TempsPermutation(AllDailyTemps(WeeklyReport(rs)), rs);
    SumPermutation(Temps(AllDailyTemps(WeeklyReport(rs))), Temps(rs));
  }

  /** The readings of a list of entries, one entry after another. */
  function AllDailyTemps(report: seq<DaySummary>): seq<Reading>
  {
    if report == [] then [] else report[0].dailyTemp + AllDailyTemps(report[1..])
  }

  lemma {:induction false} ReportConcat(rs: seq<Reading>, keys: seq<DateKey>)
    requires forall d :: d in keys ==> ReadingsOn(rs, d) != []
    ensures AllDailyTemps(seq(|keys|, i requires 0 <= i < |keys| =>
      var g := ReadingsOn(rs, keys[i]);
      Summarize(keys[i], DayGroup(g, g[0].dominantWeather)))) == Concat(rs, keys)
  {
    var report := seq(|keys|, i requires 0 <= i < |keys| =>
      var g := ReadingsOn(rs, keys[i]);
      Summarize(keys[i], DayGroup(g, g[0].dominantWeather)));
    if keys != [] {
      var rest := keys[1..];
      ReportConcat(rs, rest);
      var report' := seq(|rest|, i requires 0 <= i < |rest| =>
        var g := ReadingsOn(rs, rest[i]);
        Summarize(rest[i], DayGroup(g, g[0].dominantWeather)));
      assert report[1..] == report';
    }
  }
}
