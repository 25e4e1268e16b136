/** The second `/weekly-temperatures` handler of backend/routes/weatherRoutes.js.
    It groups the week's readings by UTC date and then by the local hour they
    round to, keeps a running total and count per hour, and answers per date
    the hourly averages in ascending hour order with the minimum, maximum and
    average of those hourly averages.

    Two facts about the source shape this module. Express dispatches a path
    to the first handler registered for it, so requests for the route reach
    the by-date handler of module `WeeklyByDate` and never this one. And the
    `forEach` callback logs a name, `hourlyData`, that nothing binds in its
    scope: the first reading handled raises a `ReferenceError`, which the
    `catch` turns into a 500. `HourlyResponseAsWritten` is the handler as
    written; `WeeklyHourlyTemperatures` is the handler without that logging
    statement, whose grouping and shaping the rest of the module proves
    things about. */
module WeeklyByHour {
  import opened TimeKeys
  import opened Stats
  import opened WeatherData

  /** An entry of a date's `hourlyData`: the running total and count, and
      the condition, `_id` and rounded timestamp of the reading that created
      it. */
  datatype HourBucket = HourBucket(
    totalTemperature: real,
    count: nat,
    dominantWeather: Option<string>,
    id: nat,
    timestamp: int)

  /** A date's `hourlyData`, keyed by the rounded hour (0 to 24). */
  type HourTable = map<int, HourBucket>

  /** One element of a date's `dailyTemp` in the response. */
  datatype HourlyTemp = HourlyTemp(id: nat, temperature: real, timestamp: int)

  /** One element of the response array. The temperatures are the values
      that `toFixed(2)` then renders. */
  datatype HourlySummary = HourlySummary(
    date: DateKey,
    dailyTemp: seq<HourlyTemp>,
    minTemp: real,
    maxTemp: real,
    avgTemp: real,
    dominantWeather: Option<string>)

  /** The hour key a reading is accumulated under. */
  function HourOf(r: Reading, offsetMs: int): int
  {
    RoundedHour(r.timestamp, offsetMs)
  }

  /** One turn of the `forEach`: create the date's entry if it is new, then
      the hour's bucket (zero total, zero count, this reading's condition,
      `_id` and rounded timestamp) if it is new, then add the temperature to
      the total and one to the count. */
  function PushHourly(table: map<DateKey, HourTable>, r: Reading, offsetMs: int): map<DateKey, HourTable>
  {
    var date, hour := DateOf(r), HourOf(r, offsetMs);
    var withDate := if date in table then table else table[date := map[]];
    var withHour := if hour in withDate[date] then withDate
      else withDate[date := withDate[date][hour := HourBucket(0.0, 0, r.dominantWeather, r.id, RoundedTimestamp(r.timestamp, offsetMs))]];
    var b := withHour[date][hour];
    var added := withHour[date := withHour[date][hour := b.(totalTemperature := b.totalTemperature + r.temperature)]];
    var c := added[date][hour];
    added[date := added[date][hour := c.(count := c.count + 1)]]
  }

  /** `temperatureDataByDateAndHour` once the `forEach` has handled `rs`. */
  function HourlyOf(rs: seq<Reading>, offsetMs: int): map<DateKey, HourTable>
  {
    if rs == [] then map[] else PushHourly(HourlyOf(rs[..|rs| - 1], offsetMs), rs[|rs| - 1], offsetMs)
  }

  /** The `forEach` that fills `temperatureDataByDateAndHour`. `dates` is the
      order in which the dictionary acquires its date keys, the order
      `Object.keys` lists them in. */
  method GroupByDateAndHour(rs: seq<Reading>, offsetMs: int)
    returns (dates: seq<DateKey>, table: map<DateKey, HourTable>)
    ensures dates == DayKeys(rs)
    ensures table == HourlyOf(rs, offsetMs)
    ensures forall d :: d in table <==> d in dates
  {
    dates, table := [], map[];
    for i := 0 to |rs|
      invariant dates == DayKeys(rs[..i])
      invariant table == HourlyOf(rs[..i], offsetMs)
      invariant forall d :: d in table <==> d in dates
    {
      var reading := rs[i];
      var date, roundedHour := DateOf(reading), HourOf(reading, offsetMs);
      assert rs[..i + 1][..i] == rs[..i];
      ghost var before := table;
      if date !in table {
        table := table[date := map[]];
        dates := dates + [date];
      }
      if roundedHour !in table[date] {
        var bucket := HourBucket(0.0, 0, reading.dominantWeather, reading.id,
          RoundedTimestamp(reading.timestamp, offsetMs));
        table := table[date := table[date][roundedHour := bucket]];
      }
      var b := table[date][roundedHour];
      table := table[date := table[date][roundedHour := b.(totalTemperature := b.totalTemperature + reading.temperature)]];
      b := table[date][roundedHour];
      table := table[date := table[date][roundedHour := b.(count := b.count + 1)]];
      assert table == PushHourly(before, reading, offsetMs);
    }
    assert rs[..|rs|] == rs;
  }

  /** The readings of one date that round to one hour, in input order. */
  function ReadingsAt(rs: seq<Reading>, d: DateKey, h: int, offsetMs: int): (g: seq<Reading>)
    ensures |g| <= |rs|
  {
    if rs == [] then []
    else
      var r := rs[|rs| - 1];
      ReadingsAt(rs[..|rs| - 1], d, h, offsetMs) + (if DateOf(r) == d && HourOf(r, offsetMs) == h then [r] else [])
  }

  /** An hour's group holds exactly the readings of that date and hour. */
  lemma {:induction false} ReadingsAtMembers(rs: seq<Reading>, d: DateKey, h: int, offsetMs: int)
    ensures forall r :: r in ReadingsAt(rs, d, h, offsetMs) <==>
      r in rs && DateOf(r) == d && HourOf(r, offsetMs) == h
  {
    if rs != [] {
      var init, r := rs[..|rs| - 1], rs[|rs| - 1];
      assert rs == init + [r];
      ReadingsAtMembers(init, d, h, offsetMs);
    }
  }

  /** An hour with readings lies on a date with readings. */
  lemma {:induction false} HourWithinDate(rs: seq<Reading>, d: DateKey, h: int, offsetMs: int)
    ensures ReadingsAt(rs, d, h, offsetMs) != [] ==> ReadingsOn(rs, d) != []
  {
    if rs != [] {
      HourWithinDate(rs[..|rs| - 1], d, h, offsetMs);
    }
  }

  /** The bucket that a non-empty group of readings adds up to. */
  function BucketOf(g: seq<Reading>, offsetMs: int): HourBucket
    requires g != []
  {
    HourBucket(Sum(Temps(g)), |g|, g[0].dominantWeather, g[0].id, RoundedTimestamp(g[0].timestamp, offsetMs))
  }

  /** One turn of the `forEach` touches only the reading's date and hour:
      that bucket is created if missing and then gains the temperature and
      one count; every other date and hour keeps its entry. */
  lemma PushHourlyEffect(table: map<DateKey, HourTable>, r: Reading, offsetMs: int)
    ensures var t', date, hour := PushHourly(table, r, offsetMs), DateOf(r), HourOf(r, offsetMs);
      && (forall d :: d in t' <==> d in table || d == date)
      && (forall d :: d in table && d != date ==> t'[d] == table[d])
      && (forall h :: h in t'[date] <==> (date in table && h in table[date]) || h == hour)
      && (forall h :: date in table && h in table[date] && h != hour ==> t'[date][h] == table[date][h])
      && t'[date][hour] ==
           if date in table && hour in table[date] then
             var b := table[date][hour];
             b.(totalTemperature := b.totalTemperature + r.temperature, count := b.count + 1)
           else
             HourBucket(0.0 + r.temperature, 0 + 1, r.dominantWeather, r.id, RoundedTimestamp(r.timestamp, offsetMs))
  {
  }

  /** The dictionary holds a date exactly when the date has readings, an
      hour of it exactly when some reading of the date rounds to that hour,
      and that hour's bucket totals and counts exactly those readings and
      keeps the condition, `_id` and rounded timestamp of the first. */
  lemma {:induction false} HourlyOfEntry(rs: seq<Reading>, d: DateKey, h: int, offsetMs: int)
    ensures d in HourlyOf(rs, offsetMs) <==> ReadingsOn(rs, d) != []
    ensures d in HourlyOf(rs, offsetMs) ==>
      (h in HourlyOf(rs, offsetMs)[d] <==> ReadingsAt(rs, d, h, offsetMs) != [])
    ensures d in HourlyOf(rs, offsetMs) && h in HourlyOf(rs, offsetMs)[d] ==>
      && ReadingsAt(rs, d, h, offsetMs) != []
      && HourlyOf(rs, offsetMs)[d][h] == BucketOf(ReadingsAt(rs, d, h, offsetMs), offsetMs)
  {
    if rs != [] {
      var init, r := rs[..|rs| - 1], rs[|rs| - 1];
      HourlyOfEntry(init, d, h, offsetMs);
      PushHourlyEffect(HourlyOf(init, offsetMs), r, offsetMs);
      HourWithinDate(init, d, h, offsetMs);
      var g := ReadingsAt(init, d, h, offsetMs);
      if DateOf(r) == d && HourOf(r, offsetMs) == h {
        BucketStep(g, r, offsetMs);
        if g == [] {
          assert ReadingsAt(rs, d, h, offsetMs) == [r];
        }
      } else {
        assert ReadingsAt(rs, d, h, offsetMs) == g;
      }
    }
  }

  /** Adding a reading to an hour's group adds its temperature to the total
      and one to the count, and keeps the first reading. */
  lemma BucketStep(g: seq<Reading>, r: Reading, offsetMs: int)
    ensures g == [] ==>
      BucketOf([r], offsetMs) ==
      HourBucket(0.0 + r.temperature, 0 + 1, r.dominantWeather, r.id, RoundedTimestamp(r.timestamp, offsetMs))
    ensures g != [] ==>
      BucketOf(g + [r], offsetMs) ==
      BucketOf(g, offsetMs).(totalTemperature := Sum(Temps(g)) + r.temperature, count := |g| + 1)
  {
    assert Temps(g + [r])[..|g|] == Temps(g);
    if g == [] {
      assert Sum(Temps([r])) == r.temperature by {
        assert Temps([r]) == [r.temperature];
        assert [r.temperature][..0] == [];
      }
    } else {
      assert (g + [r])[0] == g[0];
    }
  }

  /** Every entry of the dictionary has at least one hour; every hour key is
      between 0 and 24 and every bucket has counted at least one reading. */
  ghost predicate WellFormed(table: map<DateKey, HourTable>)
  {
    forall d :: d in table ==>
      && (exists h :: h in table[d])
      && forall h :: h in table[d] ==> 0 <= h <= 24 && table[d][h].count >= 1
  }

  lemma {:induction false} HourlyOfWellFormed(rs: seq<Reading>, offsetMs: int)
    ensures WellFormed(HourlyOf(rs, offsetMs))
  {
    if rs != [] {
      var init, r := rs[..|rs| - 1], rs[|rs| - 1];
      HourlyOfWellFormed(init, offsetMs);
      var table: map<DateKey, HourTable> := HourlyOf(init, offsetMs);
      var table': map<DateKey, HourTable> := HourlyOf(rs, offsetMs);
      var date, hour := DateOf(r), HourOf(r, offsetMs);
      forall d | d in table'
        ensures exists h :: h in table'[d]
        ensures forall h :: h in table'[d] ==> 0 <= h <= 24 && table'[d][h].count >= 1
      {
        if d == date {
          assert hour in table'[d];
        }
      }
    }
  }

  /** The members of `keys` from `h` up to 24, ascending: `Object.keys`
      lists integer-like keys in ascending numeric order. */
  function HoursFrom(keys: set<int>, h: int): seq<int>
    decreases 25 - h
  {
    if h > 24 then [] else (if h in keys then [h] else []) + HoursFrom(keys, h + 1)
  }

  /** `Object.keys(hourlyData)`. */
  function HourKeys(hours: HourTable): seq<int>
  {
    HoursFrom(hours.Keys, 0)
  }

  /** The listed hours are strictly ascending and are exactly the members
      of the set in the range from `h` to 24. */
  lemma {:induction false} HoursFromAscending(keys: set<int>, h: int)
    ensures forall i, j :: 0 <= i < j < |HoursFrom(keys, h)| ==> HoursFrom(keys, h)[i] < HoursFrom(keys, h)[j]
    ensures forall k :: k in HoursFrom(keys, h) <==> k in keys && h <= k <= 24
    decreases 25 - h
  {
    if h <= 24 {
      var rest := HoursFrom(keys, h + 1);
      HoursFromAscending(keys, h + 1);
      forall j | 0 <= j < |rest|
        ensures h < rest[j]
      {
        assert rest[j] in rest;
      }
    }
  }

  /** Two sets that agree on the hours 0 to 24 list the same hours. */
  lemma {:induction false} HoursFromAgree(a: set<int>, b: set<int>, h: int)
    requires 0 <= h
    requires forall k :: 0 <= k <= 24 ==> (k in a <==> k in b)
    ensures HoursFrom(a, h) == HoursFrom(b, h)
    decreases 25 - h
  {
    if h <= 24 {
      HoursFromAgree(a, b, h + 1);
    }
  }

  /** The hours to which some reading of date `d` rounds. */
  ghost function ReadingHours(rs: seq<Reading>, d: DateKey, offsetMs: int): set<int>
  {
    set h | 0 <= h <= 24 && ReadingsAt(rs, d, h, offsetMs) != []
  }

  /** A date with readings has a dictionary entry whose hour keys, listed,
      are the hours to which its readings round, and whose buckets add up
      those hours' readings. */
  lemma HourKeysOfDate(rs: seq<Reading>, d: DateKey, offsetMs: int)
    requires ReadingsOn(rs, d) != []
    ensures d in HourlyOf(rs, offsetMs)
    ensures HourKeys(HourlyOf(rs, offsetMs)[d]) == HoursFrom(ReadingHours(rs, d, offsetMs), 0)
    ensures forall h :: h in HourlyOf(rs, offsetMs)[d] ==>
      && ReadingsAt(rs, d, h, offsetMs) != []
      && HourlyOf(rs, offsetMs)[d][h] == BucketOf(ReadingsAt(rs, d, h, offsetMs), offsetMs)
  {
    HourlyOfEntry(rs, d, 0, offsetMs);
    HourlyOfWellFormed(rs, offsetMs);
    var hours := HourlyOf(rs, offsetMs)[d];
    forall h
      ensures h in hours ==>
        && ReadingsAt(rs, d, h, offsetMs) != []
        && hours[h] == BucketOf(ReadingsAt(rs, d, h, offsetMs), offsetMs)
      ensures 0 <= h <= 24 ==> (h in hours.Keys <==> h in ReadingHours(rs, d, offsetMs))
    {
      HourlyOfEntry(rs, d, h, offsetMs);
    }
    HoursFromAgree(hours.Keys, ReadingHours(rs, d, offsetMs), 0);
  }

  /** The hourly average of a bucket, `totalTemperature / count`. */
  function HourlyAverage(b: HourBucket): real
    requires b.count > 0
  {
    b.totalTemperature / (b.count as real)
  }

  /** A table the shaping can read: it has an hour, every hour is between
      0 and 24, and every bucket has counted a reading. */
  ghost predicate Shapeable(hours: HourTable)
  {
    (exists h :: h in hours) && forall h :: h in hours ==> 0 <= h <= 24 && hours[h].count > 0
  }

  /** A shapeable table lists at least one hour, and every listed hour has a
      bucket with a reading. */
  lemma ShapeableKeys(hours: HourTable)
    requires Shapeable(hours)
    ensures HourKeys(hours) != []
    ensures forall k :: 0 <= k < |HourKeys(hours)| ==>
      HourKeys(hours)[k] in hours && hours[HourKeys(hours)[k]].count > 0
  {
    var ks := HourKeys(hours);
    HoursFromAscending(hours.Keys, 0);
    var h0 :| h0 in hours;
    assert h0 in ks;
    forall k | 0 <= k < |ks|
      ensures ks[k] in hours && hours[ks[k]].count > 0
    {
      assert ks[k] in ks;
    }
  }

  /** The `dailyTemp` of a date: per listed hour, the first `_id`, the
      hourly average and the rounded timestamp. */
  function HourlyTemps(hours: HourTable): (ts: seq<HourlyTemp>)
    requires Shapeable(hours)
    ensures |ts| == |HourKeys(hours)|
  {
    ShapeableKeys(hours);
    var ks := HourKeys(hours);
    seq(|ks|, i requires 0 <= i < |ks| =>
      var b := hours[ks[i]];
      HourlyTemp(b.id, HourlyAverage(b), b.timestamp))
  }

  /** The hourly averages of a table, in `Object.keys` order. */
  function Averages(hours: HourTable): (avgs: seq<real>)
    requires Shapeable(hours)
    ensures |avgs| == |HourKeys(hours)| > 0
  {
    ShapeableKeys(hours);
    var ks := HourKeys(hours);
    seq(|ks|, i requires 0 <= i < |ks| => HourlyAverage(hours[ks[i]]))
  }

  /** The condition of the bucket listed first. */
  function FirstHourWeather(hours: HourTable): Option<string>
    requires Shapeable(hours)
  {
    ShapeableKeys(hours);
    hours[HourKeys(hours)[0]].dominantWeather
  }

  /** The response element for one date: the hourly entries, the minimum,
      maximum and average of the hourly averages, and the condition of the
      bucket listed first. */
  function SummarizeHours(date: DateKey, hours: HourTable): HourlySummary
    requires Shapeable(hours)
  {
    var avgs := Averages(hours);
    HourlySummary(date, HourlyTemps(hours), Min(avgs), Max(avgs), Mean(avgs), FirstHourWeather(hours))
  }

  /** `Object.keys(temperatureDataByDateAndHour).map(...)`. */
  function ShapeHourly(dates: seq<DateKey>, table: map<DateKey, HourTable>): seq<HourlySummary>
    requires forall d :: d in dates ==> d in table && Shapeable(table[d])
  {
    seq(|dates|, i requires 0 <= i < |dates| => SummarizeHours(dates[i], table[dates[i]]))
  }

  /** Every date the grouping lists has an entry the shaping can read. */
  lemma HourlyOfShapeable(rs: seq<Reading>, offsetMs: int)
    ensures forall d :: d in DayKeys(rs) ==> d in HourlyOf(rs, offsetMs) && Shapeable(HourlyOf(rs, offsetMs)[d])
  {
    DayKeysListsDates(rs);
    HourlyOfWellFormed(rs, offsetMs);
    forall d | d in DayKeys(rs)
      ensures d in HourlyOf(rs, offsetMs)
    {
      HourlyOfEntry(rs, d, 0, offsetMs);
    }
  }

  /** The report for a list of fetched readings. */
  function HourlyReport(rs: seq<Reading>, offsetMs: int): seq<HourlySummary>
  {
    HourlyOfShapeable(rs, offsetMs);
    ShapeHourly(DayKeys(rs), HourlyOf(rs, offsetMs))
  }

  /** The handler without the statement that throws: 400, 404, or the
      report of the week's readings. */
  function HourlyResponse(city: Option<string>, stored: seq<Reading>, now: int, offsetMs: int)
    : Response<seq<HourlySummary>>
  {
    if CityMissing(city) then BadRequest
    else
      var fetched := FetchWeek(city.value, stored, now, offsetMs);
      if fetched == [] then NotFound else Ok(HourlyReport(fetched, offsetMs))
  }

  /** How the `forEach` ends: having handled every reading, or with an
      exception raised in some turn, leaving the dictionary as it then was. */
  datatype ForEachOutcome = Finished(table: map<DateKey, HourTable>) | Raised(table: map<DateKey, HourTable>)

  /** One turn of the `forEach` as written: create the date's entry if it
      is new, then log `hourlyData`, a name with no binding in scope, which
      raises a `ReferenceError` before the hour's bucket is touched. */
  function PushHourlyAsWritten(table: map<DateKey, HourTable>, r: Reading): ForEachOutcome
  {
    var date := DateOf(r);
    var withDate := if date in table then table else table[date := map[]];
    Raised(withDate)
  }

  /** The `forEach` as written over `rs`: an exception ends it. */
  function HourlyOfAsWritten(rs: seq<Reading>): ForEachOutcome
  {
    if rs == [] then Finished(map[])
    else match HourlyOfAsWritten(rs[..|rs| - 1])
      case Raised(t) => Raised(t)
      case Finished(t) => PushHourlyAsWritten(t, rs[|rs| - 1])
  }

  /** As written, the `forEach` raises exactly when there is a reading,
      in its first turn: the dictionary is then left with one empty entry,
      for the first reading's date. */
  lemma {:induction false} AsWrittenRaisesOnFirstTurn(rs: seq<Reading>)
    ensures HourlyOfAsWritten(rs).Raised? <==> rs != []
    ensures rs != [] ==> HourlyOfAsWritten(rs).table == map[DateOf(rs[0]) := map[]]
  {
    if rs != [] {
      var init := rs[..|rs| - 1];
      if init != [] {
        AsWrittenRaisesOnFirstTurn(init);
        assert init[0] == rs[0];
      }
    }
  }

  /** The handler as written: the 400 and 404 guards, then the `forEach`;
      an exception it raises is caught and answered with a 500. */
  function HourlyResponseAsWritten(city: Option<string>, stored: seq<Reading>, now: int, offsetMs: int)
    : Response<seq<HourlySummary>>
  {
    if CityMissing(city) then BadRequest
    else
      var fetched := FetchWeek(city.value, stored, now, offsetMs);
      if fetched == [] then NotFound
      else if HourlyOfAsWritten(fetched).Raised? then ServerError
      else Ok(HourlyReport(fetched, offsetMs))
  }

  /** The handler without the statement that throws: the guards, the query,
      the grouping loop and the response shaping. */
  method WeeklyHourlyTemperatures(city: Option<string>, stored: seq<Reading>, now: int, offsetMs: int)
    returns (resp: Response<seq<HourlySummary>>)
    ensures resp == HourlyResponse(city, stored, now, offsetMs)
  {
    if CityMissing(city) {
      return BadRequest;
    }
    var weeklyTemperatures := FetchWeek(city.value, stored, now, offsetMs);
    if |weeklyTemperatures| == 0 {
      return NotFound;
    }
    var dates, table := GroupByDateAndHour(weeklyTemperatures, offsetMs);
    HourlyOfShapeable(weeklyTemperatures, offsetMs);
    resp := Ok(ShapeHourly(dates, table));
  }

  /** As written, the handler answers 500 exactly when the city is given
      and the trailing week holds a reading of it, which is exactly when
      the handler without the throwing statement answers with a report;
      otherwise the two agree. */
  lemma AsWrittenFailsOnEveryReport(city: Option<string>, stored: seq<Reading>, now: int, offsetMs: int)
    ensures HourlyResponseAsWritten(city, stored, now, offsetMs).ServerError? <==>
      HourlyResponse(city, stored, now, offsetMs).Ok?
    ensures HourlyResponseAsWritten(city, stored, now, offsetMs).ServerError? <==>
      !CityMissing(city) &&
      exists r :: r in stored && r.city == city.value && StartOfLastWeek(now, offsetMs) <= r.timestamp <= now
    ensures !HourlyResponse(city, stored, now, offsetMs).Ok? ==>
      HourlyResponseAsWritten(city, stored, now, offsetMs) == HourlyResponse(city, stored, now, offsetMs)
  {
    if !CityMissing(city) {
      var fetched := FetchWeek(city.value, stored, now, offsetMs);
      AsWrittenRaisesOnFirstTurn(fetched);
      if fetched != [] {
        assert fetched[0] in fetched;
      }
    }
  }

  /** The report lists the same dates as the by-date handler's, in the same
      order of first appearance. */
  lemma HourlyReportDates(rs: seq<Reading>, offsetMs: int)
    ensures |HourlyReport(rs, offsetMs)| == |DayKeys(rs)|
    ensures forall i :: 0 <= i < |DayKeys(rs)| ==> HourlyReport(rs, offsetMs)[i].date == DayKeys(rs)[i]
  {
  }

  /** The report's entry for the `i`-th date is the shaping of that date's
      dictionary entry, whose hours are the hours of the date's readings. */
  lemma HourlyReportAt(rs: seq<Reading>, offsetMs: int, i: nat)
    requires i < |DayKeys(rs)|
    ensures var d := DayKeys(rs)[i];
      && ReadingsOn(rs, d) != []
      && d in HourlyOf(rs, offsetMs)
      && Shapeable(HourlyOf(rs, offsetMs)[d])
      && HourKeys(HourlyOf(rs, offsetMs)[d]) == HoursFrom(ReadingHours(rs, d, offsetMs), 0)
      && HourlyReport(rs, offsetMs)[i] == SummarizeHours(d, HourlyOf(rs, offsetMs)[d])
  {
    var d := DayKeys(rs)[i];
    DayKeysListsDates(rs);
    assert d in DayKeys(rs);
    HourKeysOfDate(rs, d, offsetMs);
    HourlyOfShapeable(rs, offsetMs);
  }

  /** The `k`-th hourly entry and the `k`-th hourly average of a shaped
      date come from the bucket of the `k`-th listed hour. */
  lemma SummarizeHoursAt(hours: HourTable, k: nat)
    requires Shapeable(hours)
    requires k < |HourKeys(hours)|
    ensures HourKeys(hours)[k] in hours
    ensures var b := hours[HourKeys(hours)[k]];
      && b.count > 0
      && HourlyTemps(hours)[k] == HourlyTemp(b.id, HourlyAverage(b), b.timestamp)
      && Averages(hours)[k] == HourlyAverage(b)
  {
    ShapeableKeys(hours);
  }

  /** A reading's rounded hour is between 0 and 24, so so is every hour
      with readings. */
  lemma HourInRange(rs: seq<Reading>, d: DateKey, h: int, offsetMs: int)
    requires ReadingsAt(rs, d, h, offsetMs) != []
    ensures 0 <= h <= 24
  {
    var g := ReadingsAt(rs, d, h, offsetMs);
    ReadingsAtMembers(rs, d, h, offsetMs);
    assert g[0] in g;
  }

  /** The `k`-th hourly entry of the `i`-th date carries the average of
      the readings of the `k`-th hour with readings, and the `_id` and
      rounded timestamp of the first of them. */
  lemma HourlyEntryAt(rs: seq<Reading>, offsetMs: int, i: nat, k: nat)
    requires i < |DayKeys(rs)|
    requires k < |HoursFrom(ReadingHours(rs, DayKeys(rs)[i], offsetMs), 0)|
    ensures var d, e := DayKeys(rs)[i], HourlyReport(rs, offsetMs)[i];
      var g := ReadingsAt(rs, d, HoursFrom(ReadingHours(rs, d, offsetMs), 0)[k], offsetMs);
      && g != []
      && |e.dailyTemp| == |HoursFrom(ReadingHours(rs, d, offsetMs), 0)|
      && e.dailyTemp[k] == HourlyTemp(g[0].id, Mean(Temps(g)), RoundedTimestamp(g[0].timestamp, offsetMs))
  {
    var d := DayKeys(rs)[i];
    HourlyReportAt(rs, offsetMs, i);
    var hours := HourlyOf(rs, offsetMs)[d];
    SummarizeHoursAt(hours, k);
    HourlyOfEntry(rs, d, HourKeys(hours)[k], offsetMs);
  }

  /** The hours of a date, listed: strictly ascending, and exactly the
      hours to which some reading of the date rounds. */
  lemma DateHoursListed(rs: seq<Reading>, d: DateKey, offsetMs: int)
    ensures var ks := HoursFrom(ReadingHours(rs, d, offsetMs), 0);
      && (forall k, l :: 0 <= k < l < |ks| ==> ks[k] < ks[l])
      && (forall h :: h in ks <==> ReadingsAt(rs, d, h, offsetMs) != [])
  {
    var ks := HoursFrom(ReadingHours(rs, d, offsetMs), 0);
    HoursFromAscending(ReadingHours(rs, d, offsetMs), 0);
    forall h | ReadingsAt(rs, d, h, offsetMs) != []
      ensures h in ks
    {
      HourInRange(rs, d, h, offsetMs);
    }
  }

  /** A date's hourly entries: one per hour to which some reading of the
      date rounds (in the order `DateHoursListed` describes), each carrying
      the average of that hour's readings and the `_id` and rounded
      timestamp of its first reading. */
  lemma HourlyEntryHours(rs: seq<Reading>, offsetMs: int, i: nat)
    requires i < |DayKeys(rs)|
    ensures var d, e := DayKeys(rs)[i], HourlyReport(rs, offsetMs)[i];
      var ks := HoursFrom(ReadingHours(rs, d, offsetMs), 0);
      && |e.dailyTemp| == |ks|
      && (forall k :: 0 <= k < |ks| ==>
            var g := ReadingsAt(rs, d, ks[k], offsetMs);
            && g != []
            && e.dailyTemp[k] == HourlyTemp(g[0].id, Mean(Temps(g)), RoundedTimestamp(g[0].timestamp, offsetMs)))
  {
    var d := DayKeys(rs)[i];
    var ks := HoursFrom(ReadingHours(rs, d, offsetMs), 0);
    assert |HourlyReport(rs, offsetMs)[i].dailyTemp| == |ks| by {
      HourlyReportAt(rs, offsetMs, i);
    }
    forall k | 0 <= k < |ks|
      ensures var g := ReadingsAt(rs, d, ks[k], offsetMs);
        && g != []
        && HourlyReport(rs, offsetMs)[i].dailyTemp[k] ==
             HourlyTemp(g[0].id, Mean(Temps(g)), RoundedTimestamp(g[0].timestamp, offsetMs))
    {
      HourlyEntryAt(rs, offsetMs, i, k);
    }
  }

  /** The hour listed first is the lowest hour of the table. */
  lemma FirstHourIsLowest(hours: HourTable)
    requires Shapeable(hours)
    ensures HourKeys(hours) != []
    ensures forall h :: h in hours ==> HourKeys(hours)[0] <= h
  {
    var ks := HourKeys(hours);
    ShapeableKeys(hours);
    HoursFromAscending(hours.Keys, 0);
    forall h | h in hours
      ensures ks[0] <= h
    {
      assert h in ks;
      var k :| 0 <= k < |ks| && ks[k] == h;
      if k > 0 {
        assert ks[0] < ks[k];
      }
    }
  }

  /** The date's condition is that of the first reading of the lowest hour
      to which some reading of the date rounds. */
  lemma HourlyEntryWeather(rs: seq<Reading>, offsetMs: int, i: nat)
    requires i < |DayKeys(rs)|
    ensures var d, e := DayKeys(rs)[i], HourlyReport(rs, offsetMs)[i];
      exists h ::
        && ReadingsAt(rs, d, h, offsetMs) != []
        && (forall h' :: h' < h ==> ReadingsAt(rs, d, h', offsetMs) == [])
        && e.dominantWeather == ReadingsAt(rs, d, h, offsetMs)[0].dominantWeather
  {
    var d := DayKeys(rs)[i];
    HourlyReportAt(rs, offsetMs, i);
    var hours := HourlyOf(rs, offsetMs)[d];
    FirstHourIsLowest(hours);
    var h := HourKeys(hours)[0];
    ShapeableKeys(hours);
    HourlyOfEntry(rs, d, h, offsetMs);
    forall h' | h' < h
      ensures ReadingsAt(rs, d, h', offsetMs) == []
    {
      HourlyOfEntry(rs, d, h', offsetMs);
    }
  }

  /** The minimum and maximum are hourly averages of the date, every hourly
      average lies between them, and so does the daily average. */
  lemma SummarizeHoursStats(date: DateKey, hours: HourTable)
    requires Shapeable(hours)
    ensures var e := SummarizeHours(date, hours);
      && (exists k :: 0 <= k < |e.dailyTemp| && e.dailyTemp[k].temperature == e.minTemp)
      && (exists k :: 0 <= k < |e.dailyTemp| && e.dailyTemp[k].temperature == e.maxTemp)
      && (forall k :: 0 <= k < |e.dailyTemp| ==> e.minTemp <= e.dailyTemp[k].temperature <= e.maxTemp)
      && e.minTemp <= e.avgTemp <= e.maxTemp
      && e.avgTemp == Sum(Averages(hours)) / (|e.dailyTemp| as real)
  {
    var e, avgs := SummarizeHours(date, hours), Averages(hours);
    forall k | 0 <= k < |avgs|
      ensures e.dailyTemp[k].temperature == avgs[k]
    {
      SummarizeHoursAt(hours, k);
    }
    MeanBetweenMinMax(avgs);
    var k :| 0 <= k < |avgs| && avgs[k] == e.minTemp;
    var l :| 0 <= l < |avgs| && avgs[l] == e.maxTemp;
    forall k | 0 <= k < |avgs|
      ensures e.minTemp <= e.dailyTemp[k].temperature <= e.maxTemp
    {
      assert avgs[k] in avgs;
    }
  }

  /** Averaging each hour first keeps the day's figures within the range of
      the raw readings: every hourly average, and so the minimum, maximum
      and average of the date, lies between the lowest and the highest raw
      temperature of the date. */
  lemma HourlyWithinRawRange(rs: seq<Reading>, offsetMs: int, i: nat)
    requires i < |DayKeys(rs)|
    ensures var d, e := DayKeys(rs)[i], HourlyReport(rs, offsetMs)[i];
      && ReadingsOn(rs, d) != []
      && var raw := Temps(ReadingsOn(rs, d));
      && (forall k :: 0 <= k < |e.dailyTemp| ==> Min(raw) <= e.dailyTemp[k].temperature <= Max(raw))
      && Min(raw) <= e.minTemp
      && e.maxTemp <= Max(raw)
      && Min(raw) <= e.avgTemp <= Max(raw)
  {
    var d := DayKeys(rs)[i];
    var e := HourlyReport(rs, offsetMs)[i];
    HourlyEntriesWithinRawRange(rs, offsetMs, i);
    HourlyReportAt(rs, offsetMs, i);
    SummarizeHoursStats(d, HourlyOf(rs, offsetMs)[d]);
    var k :| 0 <= k < |e.dailyTemp| && e.dailyTemp[k].temperature == e.minTemp;
    var l :| 0 <= l < |e.dailyTemp| && e.dailyTemp[l].temperature == e.maxTemp;
  }

  /** Every hourly entry of a date lies within the date's raw range. */
  lemma HourlyEntriesWithinRawRange(rs: seq<Reading>, offsetMs: int, i: nat)
    requires i < |DayKeys(rs)|
    ensures var d, e := DayKeys(rs)[i], HourlyReport(rs, offsetMs)[i];
      && ReadingsOn(rs, d) != []
      && var raw := Temps(ReadingsOn(rs, d));
      forall k :: 0 <= k < |e.dailyTemp| ==> Min(raw) <= e.dailyTemp[k].temperature <= Max(raw)
  {
    var d := DayKeys(rs)[i];
    var e := HourlyReport(rs, offsetMs)[i];
    var ks := HoursFrom(ReadingHours(rs, d, offsetMs), 0);
    assert ReadingsOn(rs, d) != [] && |e.dailyTemp| == |ks| by {
      HourlyReportAt(rs, offsetMs, i);
    }
    var raw := Temps(ReadingsOn(rs, d));
    forall k | 0 <= k < |e.dailyTemp|
      ensures Min(raw) <= e.dailyTemp[k].temperature <= Max(raw)
    {
      HourlyEntryAt(rs, offsetMs, i, k);
      HourMeanInRawRange(rs, d, ks[k], offsetMs);
    }
  }

  /** The average of one hour's readings lies within the raw range of
      their date. */
  lemma HourMeanInRawRange(rs: seq<Reading>, d: DateKey, h: int, offsetMs: int)
    requires ReadingsAt(rs, d, h, offsetMs) != []
    ensures ReadingsOn(rs, d) != []
    ensures var raw := Temps(ReadingsOn(rs, d));
      Min(raw) <= Mean(Temps(ReadingsAt(rs, d, h, offsetMs))) <= Max(raw)
  {
    var g := ReadingsAt(rs, d, h, offsetMs);
    ReadingsAtMembers(rs, d, h, offsetMs);
    ReadingsOnMembers(rs, d);
    assert g[0] in g;
    assert g[0] in ReadingsOn(rs, d);
    var raw := Temps(ReadingsOn(rs, d));
    var lo, hi := Min(raw), Max(raw);
    forall x | x in Temps(g)
      ensures lo <= x <= hi
    {
      var j :| 0 <= j < |Temps(g)| && Temps(g)[j] == x;
      assert g[j] in g;
      RawTempInRange(rs, d, g[j]);
    }
    MeanWithin(Temps(g), lo, hi);
  }

  /** A reading of a date has a temperature within the date's raw range. */
  lemma RawTempInRange(rs: seq<Reading>, d: DateKey, r: Reading)
    requires r in ReadingsOn(rs, d)
    ensures Min(Temps(ReadingsOn(rs, d))) <= r.temperature <= Max(Temps(ReadingsOn(rs, d)))
  {
    var g := ReadingsOn(rs, d);
    var j :| 0 <= j < |g| && g[j] == r;
    assert Temps(g)[j] in Temps(g);
  }

  /** On a host running on UTC, a date with a reading at 23:30 or later
      ends with the entry of hour 24, whose timestamp lies on the next
      date: the reading is listed under its own date with the following
      midnight as its time. */
  lemma HourTwentyFourOnNextDate(rs: seq<Reading>, i: nat)
    requires i < |DayKeys(rs)|
    requires ReadingsAt(rs, DayKeys(rs)[i], 24, 0) != []
    ensures var e := HourlyReport(rs, 0)[i];
      && e.dailyTemp != []
      && UtcDateKey(e.dailyTemp[|e.dailyTemp| - 1].timestamp) == e.date + 1
  {
    var d := DayKeys(rs)[i];
    HourlyEntryHours(rs, 0, i);
    DateHoursListed(rs, d, 0);
    var ks := HoursFrom(ReadingHours(rs, d, 0), 0);
    assert 24 in ks;
    var k :| 0 <= k < |ks| && ks[k] == 24;
    HoursFromAscending(ReadingHours(rs, d, 0), 0);
    assert ks[|ks| - 1] in ks;
    assert k == |ks| - 1;
    var g := ReadingsAt(rs, d, 24, 0);
    ReadingsAtMembers(rs, d, 24, 0);
    assert g[0] in g;
    HourTwentyFourOnUtcHost(g[0].timestamp);
  }
}
