/** The summary the display component computes for today's readings
    (frontend/src/components/WeatherDisplay.js, inside `getWeatherData`):
    a `forEach` that folds `Math.min` and `Math.max` into `mini` and `maxi`,
    which start at +100 and -100, then an indexed `for` loop that adds the
    temperatures into `sum`, and `avg = sum / length`.

    Temperatures are the already-parsed values. `avg` of an empty list is
    `0 / 0`, which is NaN in JavaScript; the model answers `None` there. */
module WeatherDisplay {
  import opened Stats
  import opened WeatherData

  /** The starting value of `mini`. */
  const MiniStart: real := 100.0

  /** The starting value of `maxi`. */
  const MaxiStart: real := -100.0

  /** The two loops and the division. `mini` is the least of +100 and every
      temperature, `maxi` the greatest of -100 and every temperature, and
      `avg` the sum over the count, absent (NaN) for no readings. */
  method SummarizeTemperatures(temps: seq<real>) returns (mini: real, maxi: real, avg: Option<real>)
    ensures mini == Min([MiniStart] + temps)
    ensures maxi == Max([MaxiStart] + temps)
    ensures avg.None? <==> temps == []
    ensures avg.Some? ==> avg.value == Sum(temps) / (|temps| as real)
    ensures temps == [] ==> mini == MiniStart && maxi == MaxiStart
  {
    mini, maxi := MiniStart, MaxiStart;
    for i := 0 to |temps|
      invariant mini == Min([MiniStart] + temps[..i])
      invariant maxi == Max([MaxiStart] + temps[..i])
    {
      assert ([MiniStart] + temps[..i + 1])[..i + 1] == [MiniStart] + temps[..i];
      assert ([MaxiStart] + temps[..i + 1])[..i + 1] == [MaxiStart] + temps[..i];
      mini := if temps[i] < mini then temps[i] else mini;
      maxi := if temps[i] > maxi then temps[i] else maxi;
    }
    assert temps[..|temps|] == temps;
    var sum := 0.0;
    for i := 0 to |temps|
      invariant sum == Sum(temps[..i])
    {
      assert temps[..i + 1][..i] == temps[..i];
      sum := sum + temps[i];
    }
    if |temps| == 0 {
      avg := None;
    } else {
      avg := Some(sum / (|temps| as real));
    }
  }

  /** `mini` is capped at +100 and is otherwise a reading's temperature
      that no reading is below; `maxi` is floored at -100 and is otherwise a
      reading's temperature that no reading is above. */
  lemma SentinelsClamp(temps: seq<real>)
    ensures var mini, maxi := Min([MiniStart] + temps), Max([MaxiStart] + temps);
      && mini <= MiniStart
      && (mini == MiniStart || mini in temps)
      && (forall t :: t in temps ==> mini <= t)
      && MaxiStart <= maxi
      && (maxi == MaxiStart || maxi in temps)
      && (forall t :: t in temps ==> t <= maxi)
  {
    var mini, maxi := Min([MiniStart] + temps), Max([MaxiStart] + temps);
    assert MiniStart in [MiniStart] + temps;
    assert MaxiStart in [MaxiStart] + temps;
    assert forall t :: t in temps ==> t in [MiniStart] + temps && t in [MaxiStart] + temps;
  }

  /** For at least one reading, `mini` does not exceed `maxi`. */
  lemma MiniAtMostMaxi(temps: seq<real>)
    requires temps != []
    ensures Min([MiniStart] + temps) <= Max([MaxiStart] + temps)
  {
    SentinelsClamp(temps);
    assert temps[0] in temps;
  }

  /** When every temperature lies within [-100, 100], the sentinels never
      win: `mini` and `maxi` are the true minimum and maximum, and the
      average lies between them. */
  lemma InRangeIsExact(temps: seq<real>)
    requires temps != []
    requires forall t :: t in temps ==> MaxiStart <= t <= MiniStart
    ensures Min([MiniStart] + temps) == Min(temps)
    ensures Max([MaxiStart] + temps) == Max(temps)
    ensures Min(temps) <= Mean(temps) <= Max(temps)
  {
    SentinelsClamp(temps);
    var mini, maxi := Min([MiniStart] + temps), Max([MaxiStart] + temps);
    assert Min(temps) in [MiniStart] + temps;
    assert Max(temps) in [MaxiStart] + temps;
    if mini == MiniStart {
      assert Min(temps) <= MiniStart;
    }
    if maxi == MaxiStart {
      assert MaxiStart <= Max(temps);
    }
    MeanBetweenMinMax(temps);
  }

  /** Reordering the readings changes none of `mini`, `maxi` and `avg`. */
  lemma OrderIndependent(a: seq<real>, b: seq<real>)
    requires multiset(a) == multiset(b)
    ensures Min([MiniStart] + a) == Min([MiniStart] + b)
    ensures Max([MaxiStart] + a) == Max([MaxiStart] + b)
    ensures |a| == |b| && Sum(a) == Sum(b)
  {
    SentinelsClamp(a);
    SentinelsClamp(b);
    assert forall t :: t in a <==> t in multiset(a);
    assert forall t :: t in b <==> t in multiset(b);
    assert |a| == |multiset(a)| == |multiset(b)| == |b|;
    SumPermutation(a, b);
  }
}
