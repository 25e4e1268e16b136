/** Stored readings as the weekly handlers see them, the handlers' response
    statuses, the store query they issue, and the declarative description of
    grouping readings by UTC date that both handlers implement with a
    `forEach` over a dictionary. */
module WeatherData {
  import opened TimeKeys
  import opened Stats

  datatype Option<T> = None | Some(value: T)

  /** A stored weather record: `_id`, `city`, the temperature already parsed
      from its string, `timestamp` in milliseconds, and `dominantWeather`,
      which the handlers select although the stored schema names the
      condition `main`, so it may be absent. */
  datatype Reading = Reading(
    id: nat,
    city: string,
    temperature: real,
    timestamp: int,
    dominantWeather: Option<string>)

  /** What a handler answers: status 400, 404 or 500 with a message, or a
      JSON body. */
  datatype Response<T> = BadRequest | NotFound | ServerError | Ok(body: T)

  /** `!city` on the `city` query parameter: absent or the empty string. */
  predicate CityMissing(city: Option<string>)
  {
    city.None? || city.value == ""
  }

  /** `Weather.find({ city, timestamp: { $gte: start, $lte: end } })`, in the
      order the store returns the records. */
  function FetchRange(stored: seq<Reading>, city: string, start: int, end: int): (rs: seq<Reading>)
    ensures |rs| <= |stored|
    ensures forall r :: r in rs <==> r in stored && r.city == city && start <= r.timestamp <= end
  {
    if stored == [] then []
    else
      var init, r := stored[..|stored| - 1], stored[|stored| - 1];
      assert stored == init + [r];
      FetchRange(init, city, start, end)
        + (if r.city == city && start <= r.timestamp <= end then [r] else [])
  }

  /** The readings both weekly handlers fetch: the city's readings from the
      start of the trailing week up to `now`. */
  function FetchWeek(city: string, stored: seq<Reading>, now: int, offsetMs: int): seq<Reading>
  {
    FetchRange(stored, city, StartOfLastWeek(now, offsetMs), now)
  }

  /** `parseFloat(t.temperature)` for every reading, in order. */
  function Temps(rs: seq<Reading>): (ts: seq<real>)
    ensures |ts| == |rs|
    ensures forall i :: 0 <= i < |rs| ==> ts[i] == rs[i].temperature
  {
    seq(|rs|, i requires 0 <= i < |rs| => rs[i].temperature)
  }

  /** Parsing the temperatures of two lists one after the other parses
      the temperatures of their concatenation. */
  lemma TempsAppend(a: seq<Reading>, b: seq<Reading>)
    ensures Temps(a + b) == Temps(a) + Temps(b)
  {
  }

  /** Reordering the readings reorders their temperatures the same way:
      the same readings, counted with multiplicity, have the same
      temperatures, counted with multiplicity. */
  lemma {:induction false} TempsPermutation(a: seq<Reading>, b: seq<Reading>)
    requires multiset(a) == multiset(b)
    ensures multiset(Temps(a)) == multiset(Temps(b))
  {
    if a == [] {
      assert |b| == |multiset(b)| == 0;
    } else {
      var n := |a| - 1;
      var x := a[n];
      assert x in multiset(b);
      var j :| 0 <= j < |b| && b[j] == x;
      MultisetRemoveAt(a, n);
      MultisetRemoveAt(b, j);
      assert a[..n] + a[n + 1..] == a[..n];
      TempsPermutation(a[..n], b[..j] + b[j + 1..]);
      TempsRemoveAt(a, n);
      TempsRemoveAt(b, j);
    }
  }

  /** Taking one reading out of a list takes its temperature out of the
      list's temperatures. */
  lemma TempsRemoveAt(b: seq<Reading>, j: int)
    requires 0 <= j < |b|
    ensures multiset(Temps(b)) == multiset(Temps(b[..j] + b[j + 1..])) + multiset{b[j].temperature}
  {
    assert b == b[..j] + [b[j]] + b[j + 1..];
    TempsAppend(b[..j] + [b[j]], b[j + 1..]);
    TempsAppend(b[..j], [b[j]]);
    TempsAppend(b[..j], b[j + 1..]);
  }

  /** The key a reading is grouped under: `toISOString().split('T')[0]`. */
  function DateOf(r: Reading): DateKey
  {
    UtcDateKey(r.timestamp)
  }

  predicate Distinct<T(==)>(s: seq<T>)
  {
    forall i, j :: 0 <= i < j < |s| ==> s[i] != s[j]
  }

  /** The readings of one date, in input order. */
  function ReadingsOn(rs: seq<Reading>, d: DateKey): (g: seq<Reading>)
    ensures |g| <= |rs|
  {
    if rs == [] then []
    else ReadingsOn(rs[..|rs| - 1], d) + (if DateOf(rs[|rs| - 1]) == d then [rs[|rs| - 1]] else [])
  }

  /** A date's group holds exactly the readings of that date. */
  lemma {:induction false} ReadingsOnMembers(rs: seq<Reading>, d: DateKey)
    ensures forall r :: r in ReadingsOn(rs, d) <==> r in rs && DateOf(r) == d
  {
    if rs != [] {
      var init, r := rs[..|rs| - 1], rs[|rs| - 1];
      assert rs == init + [r];
      ReadingsOnMembers(init, d);
    }
  }

  /** The dates that occur in the input, each once, in the order in which
      their first reading occurs: the order in which the grouping dictionary
      acquires its keys, and so the order `Object.keys` lists them. */
  function DayKeys(rs: seq<Reading>): seq<DateKey>
  {
    if rs == [] then []
    else
      var keys, date := DayKeys(rs[..|rs| - 1]), DateOf(rs[|rs| - 1]);
      if date in keys then keys else keys + [date]
  }

  /** Each date with readings is listed once, and no other date is. */
  lemma {:induction false} DayKeysListsDates(rs: seq<Reading>)
    ensures Distinct(DayKeys(rs))
    ensures forall d :: d in DayKeys(rs) <==> ReadingsOn(rs, d) != []
  {
    if rs != [] {
      DayKeysListsDates(rs[..|rs| - 1]);
      OnSomeDateAfterSnoc(rs);
    }
  }

  /** The position of the first reading of a date. */
  function FirstIndex(rs: seq<Reading>, d: DateKey): (i: nat)
    requires ReadingsOn(rs, d) != []
    ensures i < |rs| && DateOf(rs[i]) == d
    ensures forall j :: 0 <= j < i ==> DateOf(rs[j]) != d
  {
    var init := rs[..|rs| - 1];
    if ReadingsOn(init, d) != [] then FirstIndex(init, d)
    else
      NoReadingOnDate(init, d);
      |rs| - 1
  }

  /** A date has readings after one more reading exactly when it had some
      before or the new reading is on it. */
  lemma OnSomeDateAfterSnoc(rs: seq<Reading>)
    requires rs != []
    ensures forall d :: ReadingsOn(rs, d) != [] <==>
      ReadingsOn(rs[..|rs| - 1], d) != [] || DateOf(rs[|rs| - 1]) == d
  {
  }

  /** A date without a group has no reading in the input. */
  lemma NoReadingOnDate(rs: seq<Reading>, d: DateKey)
    requires ReadingsOn(rs, d) == []
    ensures forall j :: 0 <= j < |rs| ==> DateOf(rs[j]) != d
  {
    ReadingsOnMembers(rs, d);
    assert forall j :: 0 <= j < |rs| ==> rs[j] in rs;
  }

  /** The groups of the given dates, one after another. */
  function Concat(rs: seq<Reading>, keys: seq<DateKey>): seq<Reading>
  {
    if keys == [] then [] else ReadingsOn(rs, keys[0]) + Concat(rs, keys[1..])
  }

  /** A day's group starts with the first reading of that day, so whatever
      is copied from the reading that created the group comes from there. */
  lemma {:induction false} GroupStartsAtFirstReading(rs: seq<Reading>, d: DateKey)
    requires ReadingsOn(rs, d) != []
    ensures ReadingsOn(rs, d)[0] == rs[FirstIndex(rs, d)]
  {
    var init := rs[..|rs| - 1];
    if ReadingsOn(init, d) != [] {
      GroupStartsAtFirstReading(init, d);
    }
  }

  /** Dates are listed in the order of their first reading. */
  lemma {:induction false} DayKeysInFirstAppearanceOrder(rs: seq<Reading>)
    ensures forall i, j :: 0 <= i < j < |DayKeys(rs)| ==>
      && ReadingsOn(rs, DayKeys(rs)[i]) != []
      && ReadingsOn(rs, DayKeys(rs)[j]) != []
      && FirstIndex(rs, DayKeys(rs)[i]) < FirstIndex(rs, DayKeys(rs)[j])
  {
    if rs != [] {
      var init, r := rs[..|rs| - 1], rs[|rs| - 1];
      DayKeysInFirstAppearanceOrder(init);
      DayKeysListsDates(init);
      DayKeysListsDates(rs);
      var keys, keys' := DayKeys(init), DayKeys(rs);
      forall i, j | 0 <= i < j < |keys'|
        ensures && ReadingsOn(rs, keys'[i]) != []
                && ReadingsOn(rs, keys'[j]) != []
                && FirstIndex(rs, keys'[i]) < FirstIndex(rs, keys'[j])
      {
        assert keys'[i] in keys;
        assert ReadingsOn(init, keys'[i]) != [];
        if j < |keys| {
          assert keys'[j] == keys[j];
        } else {
          assert keys'[j] == DateOf(r) && DateOf(r) !in keys;
          assert ReadingsOn(init, keys'[j]) == [];
        }
      }
    } else {
      assert DayKeys(rs) == [];
    }
  }

  /** Adding one reading at the end adds it to the concatenated groups
      exactly when its date is among the listed (distinct) dates. */
  lemma {:induction false} ConcatSnoc(rs: seq<Reading>, r: Reading, keys: seq<DateKey>)
    requires Distinct(keys)
    ensures multiset(Concat(rs + [r], keys)) ==
      multiset(Concat(rs, keys)) + (if DateOf(r) in keys then multiset{r} else multiset{})
  {
    if keys != [] {
      var rest := keys[1..];
      assert Distinct(rest);
      ConcatSnoc(rs, r, rest);
      assert (rs + [r])[..|rs + [r]| - 1] == rs;
      assert DateOf(r) in keys <==> DateOf(r) == keys[0] || DateOf(r) in rest;
      assert DateOf(r) == keys[0] ==> DateOf(r) !in rest;
    }
  }

  /** Listing one more date appends its group. */
  lemma {:induction false} ConcatAppendKey(rs: seq<Reading>, keys: seq<DateKey>, d: DateKey)
    ensures Concat(rs, keys + [d]) == Concat(rs, keys) + ReadingsOn(rs, d)
  {
    if keys == [] {
      assert [d][1..] == [];
    } else {
      assert (keys + [d])[1..] == keys[1..] + [d];
      ConcatAppendKey(rs, keys[1..], d);
    }
  }

  /** The day groups partition the input: concatenated in key order they
      hold every reading exactly as often as the input does. */
  lemma {:induction false} GroupsPartitionReadings(rs: seq<Reading>)
    ensures multiset(Concat(rs, DayKeys(rs))) == multiset(rs)
  {
    if rs != [] {
      var init, r := rs[..|rs| - 1], rs[|rs| - 1];
      assert rs == init + [r];
      GroupsPartitionReadings(init);
      var keys := DayKeys(init);
      DayKeysListsDates(init);
      ConcatSnoc(init, r, keys);
      if DateOf(r) !in keys {
        ConcatAppendKey(rs, keys, DateOf(r));
        assert ReadingsOn(init, DateOf(r)) == [];
        assert ReadingsOn(rs, DateOf(r)) == [r];
      }
    }
  }
}
