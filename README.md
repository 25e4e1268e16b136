# weatherMonitoring: daily and hourly temperature aggregation in Dafny

This project models the aggregation logic of the weatherMonitoring application:

- **`/weekly-temperatures`, as served.** The handler fetches a city's readings for the trailing week. It groups them in a dictionary keyed by the UTC date of their timestamp. It then answers one entry per date, in the order the dates first appear. Each entry has the average, minimum and maximum of that date's raw temperatures, the condition of the date's first reading, and the readings themselves.
- **`/weekly-temperatures`, second registration.** This handler rounds every reading to the nearest local hour, with 30 minutes or more rounding up. It keeps a running total and count per (UTC date, rounded hour) bucket. Per date, it answers the hourly averages in ascending hour order, together with the minimum, maximum and average of those hourly averages and the condition of the lowest hour's bucket.
  - Express dispatches the route to the first registration, so this handler is never reached.
  - As written, it also raises a `ReferenceError` on its first reading (see Findings).
  - The model keeps both: the handler as written, and the handler without the throwing statement.
- **The display component's summary.** `mini` starts at +100 and `maxi` at -100. A `forEach` folds `Math.min` and `Math.max` into them. An indexed `for` loop sums the temperatures, and `avg = sum / length`.

Modules:

| file | module | contents |
|---|---|---|
| `stats.dfy` | `Stats` | sum, minimum, maximum and mean of a list of temperatures, and their laws |
| `time_keys.dfy` | `TimeKeys` | UTC date key, local minutes and hours, the rounded hour and timestamp, the start of the trailing week |
| `weather_data.dfy` | `WeatherData` | readings, response statuses, the store query, and the grouping of readings by date stated without a dictionary |
| `weekly_by_date.dfy` | `WeeklyByDate` | the served handler: the grouping loop, the response shaping, and the handler |
| `weekly_by_hour.dfy` | `WeeklyByHour` | the second handler: the bucketing loop, the shaping, and the handler as written and without the throwing statement |
| `weather_display.dfy` | `WeatherDisplay` | the component's two loops and what they compute |

Imperative parts are methods with loops: the two `forEach` loops that fill dictionaries, and the component's two loops. Each method is proved against a function that describes the state after handling a prefix of the input. Lemmas then relate that function to a description of the answer that uses no dictionary. The response shaping (`map`, `reduce`, `Math.min`, `Math.max` over the finished dictionary) is modelled as functions.

Representation choices:

- A timestamp is an integer count of milliseconds since the epoch.
- The UTC date key is the day number `timestamp / 86400000`. The `YYYY-MM-DD` string the source uses renders that number one-to-one, so grouping by either gives the same groups.
- The host timezone is a fixed offset `offsetMs`, with local time = UTC + `offsetMs`.
- Temperatures are the already-parsed `real` values.
- The handlers' `new Date()` is the parameter `now`. Each handler reads the clock twice (`endOfDay` and `startOfLastWeek`); both reads are taken as the same instant. The store's records are the parameter `stored`, in the order the store returns them.

Points where the code behaves otherwise than its names and comments suggest; the model follows the code:

- A reading at 23:30 local time or later rounds to hour key 24 under its own UTC date, while its rounded timestamp is the following local midnight.
- Hour keys therefore run from 0 to 24.
- The second handler takes a date's minimum, maximum and average over the hourly averages, so an hour with many readings weighs as much as an hour with one. `WeeklyByHour.HourlyWithinRawRange` relates these figures to the raw readings.
- In the by-date handler, a date's condition (the field named `dominantWeather`) is that of its first reading in the order the store returns them; nothing sorts the readings by time.
- In the hourly handler, a date's condition is that of the first reading of its lowest-numbered hour bucket. For readings returned as [23:40 "Rain", 00:10 "Clear"] on one date of a UTC host, the by-date handler answers "Rain" and the hourly handler "Clear", because hour 0 is listed before hour 24.

## Model

| member | source | states |
|---|---|---|
| Stats.Min | backend/routes/weatherRoutes.js:128 | `Math.min(...xs)` of a non-empty list is an element of the list that no element is below |
| Stats.Max | backend/routes/weatherRoutes.js:129 | `Math.max(...xs)` of a non-empty list is an element of the list that no element is above |
| Stats.SumAppend | backend/routes/weatherRoutes.js:127 | the `reduce` sum of a concatenation is the sum of the sums |
| Stats.SumPermutation | frontend/src/components/WeatherDisplay.js:50-53 | two lists with the same elements, counted with multiplicity, have the same sum |
| Stats.SumAtLeast | backend/routes/weatherRoutes.js:127 | a lower bound on every element bounds the sum by length times the bound |
| Stats.SumAtMost | backend/routes/weatherRoutes.js:127 | an upper bound on every element bounds the sum by length times the bound |
| Stats.MeanWithin | backend/routes/weatherRoutes.js:127 | sum over length lies between any lower and any upper bound of the elements |
| Stats.MeanBetweenMinMax | backend/routes/weatherRoutes.js:127-129 | minimum ≤ sum/length ≤ maximum for a non-empty list |
| TimeKeys.LocalMinutes | backend/routes/weatherRoutes.js:269 | `getMinutes()` lies in 0..59 |
| TimeKeys.LocalHours | backend/routes/weatherRoutes.js:270 | `getHours()` lies in 0..23 |
| TimeKeys.RoundedHour | backend/routes/weatherRoutes.js:270 | the rounded hour lies in 0..24 |
| TimeKeys.UtcDateKey | backend/routes/weatherRoutes.js:114 | a timestamp gets date key `d` exactly when it lies in `[d·86400000, (d+1)·86400000)`; proved in `TimeKeys.UtcDateKeyBounds` |
| TimeKeys.UtcDateKeyBounds | backend/routes/weatherRoutes.js:114 | date key `d` ⇔ the timestamp lies within the 24 hours of day `d`, both directions |
| TimeKeys.LocalClock | backend/routes/weatherRoutes.js:269-270 | minutes ≥ 30 ⇔ at least 30 minutes into the local hour; the local day's remainder is hours·3600000 plus the hour's remainder |
| TimeKeys.RoundedTimestampNear | backend/routes/weatherRoutes.js:268-271 | the rounded timestamp is a whole local hour, within 30 minutes of the reading (later by at most 30, earlier by less than 30), and later exactly when minutes ≥ 30 |
| TimeKeys.HourTwentyFour | backend/routes/weatherRoutes.js:270-271 | the rounded hour is 24 ⇔ local time is 23:30 or later, and then the rounded timestamp is the next local midnight |
| TimeKeys.HourTwentyFourOnUtcHost | backend/routes/weatherRoutes.js:265-271 | on a UTC host, a reading rounded to hour 24 has a rounded timestamp whose date key is one more than its own |
| TimeKeys.StartOfLastWeekBounds | backend/routes/weatherRoutes.js:93-95 | the week starts at a local midnight, at least 7 and less than 8 days before `now` |
| WeatherData.FetchRange | backend/routes/weatherRoutes.js:98-104 | a record is fetched ⇔ it is stored, its city matches, and start ≤ timestamp ≤ end |
| WeatherData.TempsAppend | backend/routes/weatherRoutes.js:126 | parsing the temperatures of a concatenation gives the two lists' temperatures one after the other |
| WeatherData.TempsPermutation | backend/routes/weatherRoutes.js:126 | readings that are a reordering of each other have temperatures that are a reordering of each other |
| WeatherData.TempsRemoveAt | backend/routes/weatherRoutes.js:126 | taking one reading out of a list takes exactly its temperature out of the list's temperatures |
| WeatherData.ReadingsOnMembers | backend/routes/weatherRoutes.js:113-122 | a date's group holds exactly the input readings on that UTC date |
| WeatherData.DayKeysListsDates | backend/routes/weatherRoutes.js:112-125 | the listed dates are distinct, and a date is listed ⇔ it has a reading |
| WeatherData.FirstIndex | backend/routes/weatherRoutes.js:115 | the position of a date's first reading: on that date, with no earlier reading on it |
| WeatherData.GroupStartsAtFirstReading | backend/routes/weatherRoutes.js:115-121 | a date's group starts with the input's first reading on that date |
| WeatherData.DayKeysInFirstAppearanceOrder | backend/routes/weatherRoutes.js:115-125 | dates are listed in the order in which their first readings occur |
| WeatherData.GroupsPartitionReadings | backend/routes/weatherRoutes.js:113-122 | the groups, concatenated in listing order, are a permutation of the input |
| WeeklyByDate.GroupByDate | backend/routes/weatherRoutes.js:112-122 | the `forEach` leaves the dictionary of the fold of the input and its keys in insertion order, and exactly the listed dates have entries |
| WeeklyByDate.GroupsOfEntry | backend/routes/weatherRoutes.js:113-122 | a date has an entry ⇔ it has readings; its `dailyTemp` is that date's readings in input order, and its condition is the first one's |
| WeeklyByDate.ReportFromDictionary | backend/routes/weatherRoutes.js:125-139 | shaping the filled dictionary gives the report stated from the readings alone |
| WeeklyByDate.WeeklyTemperatures | backend/routes/weatherRoutes.js:83-147 | the handler answers `WeeklyResponse`: 400, 404, or the report of the fetched readings |
| WeeklyByDate.WeeklyResponseStatus | backend/routes/weatherRoutes.js:86-109 | 400 ⇔ city missing; 404 ⇔ city given and no stored reading of it lies in the trailing week; never 500; otherwise the report of the fetched readings |
| WeeklyByDate.WeeklyReportDates | backend/routes/weatherRoutes.js:125-139 | one entry per date that has readings, each date once, every reading's date present, in first-appearance order |
| WeeklyByDate.WeeklyReportEntry | backend/routes/weatherRoutes.js:126-137 | an entry's readings are the date's readings; its condition is the first reading's; avg = sum/len; min and max are attained by readings of the day and bound them all; min ≤ avg ≤ max |
| WeeklyByDate.WeeklyReportTemps | backend/routes/weatherRoutes.js:121-127 | the entries' temperatures, taken together, are the fetched readings' temperatures reordered, with the same total |
| WeeklyByDate.WeeklyReportPartition | backend/routes/weatherRoutes.js:121-137 | the entries' `dailyTemp` lists, concatenated, are a permutation of the fetched readings |
| WeeklyByHour.GroupByDateAndHour | backend/routes/weatherRoutes.js:262-297 | the `forEach` leaves the dictionary of the fold of the input and its date keys in insertion order, and exactly the listed dates have entries |
| WeeklyByHour.ReadingsAtMembers | backend/routes/weatherRoutes.js:265-285 | an hour's group holds exactly the readings of that UTC date whose rounded local hour is that hour |
| WeeklyByHour.PushHourlyEffect | backend/routes/weatherRoutes.js:273-296 | one turn creates the reading's date and hour if missing, adds the temperature and one count to that bucket, and leaves every other bucket as it was |
| WeeklyByHour.BucketStep | backend/routes/weatherRoutes.js:284-296 | a new bucket starts at zero and gains the first reading; a later reading adds its temperature and one count and keeps the first reading's fields |
| WeeklyByHour.HourlyOfEntry | backend/routes/weatherRoutes.js:273-296 | a date has an entry ⇔ it has readings; an hour has a bucket ⇔ some reading of the date rounds to it; the bucket's total and count are that hour's sum and number of readings, and its condition, `_id` and rounded timestamp are the first one's |
| WeeklyByHour.HourlyOfWellFormed | backend/routes/weatherRoutes.js:274-296 | every date entry has an hour, every hour key is in 0..24, and every bucket has count ≥ 1 |
| WeeklyByHour.HoursFromAscending | backend/routes/weatherRoutes.js:303 | `Object.keys` of the hour table lists exactly its keys in range, strictly ascending |
| WeeklyByHour.HourKeysOfDate | backend/routes/weatherRoutes.js:284-303 | a date's listed hour keys are exactly the listed hours of its readings |
| WeeklyByHour.SummarizeHoursAt | backend/routes/weatherRoutes.js:303-323 | the k-th hourly entry and average come from the bucket of the k-th listed hour: its `_id`, total/count, and rounded timestamp |
| WeeklyByHour.HourInRange | backend/routes/weatherRoutes.js:270 | every hour with readings lies in 0..24 |
| WeeklyByHour.WeeklyHourlyTemperatures | backend/routes/weatherRoutes.js:233-334 | the handler without the throwing statement answers `HourlyResponse`: 400, 404, or the hourly report of the fetched readings |
| WeeklyByHour.AsWrittenRaisesOnFirstTurn | backend/routes/weatherRoutes.js:264-280 | as written, the `forEach` raises ⇔ there is a reading, and it raises in the first turn, leaving one empty entry for the first reading's date |
| WeeklyByHour.AsWrittenFailsOnEveryReport | backend/routes/weatherRoutes.js:240-280 | as written, the handler answers 500 ⇔ the city is given and the week has a reading of it ⇔ the handler without the throwing statement would answer a report; otherwise the two agree |
| WeeklyByHour.HourlyReportDates | backend/routes/weatherRoutes.js:300-302 | the hourly report lists the same dates, in the same order, as the served handler's |
| WeeklyByHour.HourlyReportAt | backend/routes/weatherRoutes.js:300-326 | the i-th entry shapes the i-th date's table, whose hour keys are the hours of that date's readings |
| WeeklyByHour.HourlyEntryAt | backend/routes/weatherRoutes.js:303-312 | the k-th hourly entry carries the mean of the k-th hour's readings and the first one's `_id` and rounded timestamp |
| WeeklyByHour.DateHoursListed | backend/routes/weatherRoutes.js:303 | a date's listed hours are strictly ascending, and an hour is listed ⇔ some reading of the date rounds to it |
| WeeklyByHour.HourlyEntryHours | backend/routes/weatherRoutes.js:303-313 | a date's `dailyTemp` has one entry per listed hour, each the mean of that hour's readings with the first one's `_id` and rounded timestamp |
| WeeklyByHour.FirstHourIsLowest | backend/routes/weatherRoutes.js:324 | the first listed hour is the lowest hour of the table |
| WeeklyByHour.HourlyEntryWeather | backend/routes/weatherRoutes.js:324 | a date's condition is that of the first reading of the lowest hour that has readings |
| WeeklyByHour.SummarizeHoursStats | backend/routes/weatherRoutes.js:315-323 | min and max are attained by hourly averages and bound them all; avg = (sum of hourly averages)/(number of hours); min ≤ avg ≤ max |
| WeeklyByHour.HourMeanInRawRange | backend/routes/weatherRoutes.js:295-306 | the average of one hour's readings lies between the lowest and highest raw temperature of their date |
| WeeklyByHour.HourlyEntriesWithinRawRange | backend/routes/weatherRoutes.js:303-313 | every hourly entry of a date lies between the lowest and highest raw temperature of the date |
| WeeklyByHour.HourlyWithinRawRange | backend/routes/weatherRoutes.js:303-323 | every hourly average, and the date's min, max and avg, lie between the lowest and highest raw temperature of the date |
| WeeklyByHour.HourTwentyFourOnNextDate | backend/routes/weatherRoutes.js:270-291 | on a UTC host, a date with a reading at 23:30 or later ends with hour 24, whose timestamp has the next date key |
| WeatherDisplay.SummarizeTemperatures | frontend/src/components/WeatherDisplay.js:41-56 | `mini` = least of +100 and every temperature; `maxi` = greatest of -100 and every temperature; `avg` = sum/length, absent (NaN) exactly for no readings, when the sentinels are reported unchanged |
| WeatherDisplay.SentinelsClamp | frontend/src/components/WeatherDisplay.js:42-48 | `mini` ≤ 100, and it is 100 or some temperature, and it bounds every temperature from below; symmetrically for `maxi` with -100 |
| WeatherDisplay.MiniAtMostMaxi | frontend/src/components/WeatherDisplay.js:45-48 | for at least one reading, `mini` ≤ `maxi` |
| WeatherDisplay.InRangeIsExact | frontend/src/components/WeatherDisplay.js:41-56 | when every temperature is in [-100, 100], `mini` and `maxi` are the true minimum and maximum, and `mini` ≤ `avg` ≤ `maxi` |
| WeatherDisplay.OrderIndependent | frontend/src/components/WeatherDisplay.js:45-53 | reordering the readings changes none of `mini`, `maxi`, the count and the sum |

## Left out

- The store queries (`Weather.find(...).select(...)`) are not modelled as a database. They are the filter `WeatherData.FetchRange` over a given list, whose order is the order the store returns.
- `toFixed(2)`, `parseFloat`, `Number` and IEEE rounding are left out. Temperatures are exact reals, already parsed, and the response carries unrounded values.
- The `YYYY-MM-DD` rendering of the date key is left out. The key is the UTC day number, which the string renders one-to-one.
- Daylight-saving changes are left out. The host timezone is a fixed offset, so `setDate(getDate() - 7)` followed by `setHours(0, 0, 0, 0)` is local midnight of the instant seven days earlier.
- The record's `_id` is a natural number.
- `dominantWeather` is an optional string on each reading. The stored schema names the condition `main`, so the field the handlers select may be absent.
- WeeklyByDate.DaySummary: an entry's `dailyTemp` carries whole modelled readings, including `city` and the parsed temperature. The source's entries hold the documents that `.select('temperature timestamp dominantWeather')` returns: `_id`, the temperature as stored, the timestamp, and `dominantWeather` when present.
- The JSON bodies of the 400, 404 and 500 answers, and the `console` logging in the hourly handler, are left out.
- WeeklyByHour.WeeklyHourlyTemperatures: models the handler without the logging statement at line 280. As written, that statement throws, and `WeeklyByHour.HourlyResponseAsWritten` is the handler's actual answer.
- WeeklyByDate.WeeklyResponseStatus: "never 500" holds for a store that answers. Both handlers await `Weather.find(...)` inside a `try`, and a rejected query is answered 500 by the `catch` (backend/routes/weatherRoutes.js:143-146 and 330-333); the model's store is a list and cannot fail.
- WeeklyByHour.AsWrittenFailsOnEveryReport: "500 exactly when the city is given and the week has a reading" holds for a store that answers. A rejected query is also answered 500, with or without readings.
- The second handler is unreachable under Express, because the route is registered twice. The model gives each handler its own function and does not model route dispatch.
- WeatherDisplay.SummarizeTemperatures: the NaN that `0 / 0` yields for no readings is `None`. The React state update, the socket subscription and the component's rendering are left out.
- Threshold alerting, cron jobs, e-mail, sessions, the weather-provider client and the charts are not part of this model. They are I/O or rendering, with no threshold evaluator in the code.

## Findings

| source | as written | input that shows it | evidently intended | confidence | as-written member | corrected member |
|---|---|---|---|---|---|---|
| backend/routes/weatherRoutes.js:280 | the `forEach` callback logs `hourlyData`, a name bound only inside a later, separate callback, so the first reading raises a `ReferenceError` and the handler answers 500 | `city=Delhi` with one stored Delhi reading inside the trailing week | log the entry just created, or nothing, and answer the hourly report | high (not executed) | WeeklyByHour.AsWrittenFailsOnEveryReport | WeeklyByHour.WeeklyHourlyTemperatures |
