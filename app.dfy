/**
 * The application layer (app.py) without its console: the three input
 * validators, the calculate-and-save step that ties the store, the
 * calculator and the batch save together, and the two checks the ETc view
 * makes before it calls that step. Python's `float()` and `int()` are the
 * parameters `parseFloat` and `parseInt` (`None` where they raise), and the
 * clock reading is the parameter `now`.
 */
module App {
  import opened Wrappers
  import opened Seqs
  import opened Text
  import opened Models
  import opened Calculator
  import opened EtcRecords
  import opened Database

  // ---------------------------------------------------------------------------
  // Input validators
  // ---------------------------------------------------------------------------

  /** A parsed number that is not negative is kept; anything else is refused. */
  function AcceptNonNegative(parsed: Option<real>): Option<real>
  {
    match parsed
    case None => None
    case Some(v) => if v < 0.0 then None else Some(v)
  }

  /** A parsed whole number of at least 1 is kept; anything else is refused. */
  function AcceptWeek(parsed: Option<int>): Option<int>
  {
    match parsed
    case None => None
    case Some(n) => if n < 1 then None else Some(n)
  }

  /** `validate_et0_input`. */
  function ValidateEt0Input(value: string, parseFloat: string -> Option<real>): Option<real>
  {
    AcceptNonNegative(parseFloat(Strip(value)))
  }

  /** `validate_crop_factor_input`: the same rule as for ET0. */
  function ValidateCropFactorInput(value: string, parseFloat: string -> Option<real>): Option<real>
  {
    AcceptNonNegative(parseFloat(Strip(value)))
  }

  /** `validate_fertilizer_week_input`. */
  function ValidateFertilizerWeekInput(value: string, parseInt: string -> Option<int>): Option<int>
  {
    AcceptWeek(parseInt(Strip(value)))
  }

  lemma AcceptNonNegativeEt0(parsed: Option<real>, date: string)
    requires IsDateShaped(date)
    ensures AcceptNonNegative(parsed).Some? <==> parsed.Some? && NewWeatherData(date, parsed.value).Success?
    ensures AcceptNonNegative(parsed).Some? ==> AcceptNonNegative(parsed) == parsed
  {
  }

  lemma AcceptNonNegativeCropFactor(parsed: Option<real>, name: string, week: int)
    requires !AllSpace(name) && week >= 1
    ensures AcceptNonNegative(parsed).Some? <==> parsed.Some? && NewField(name, parsed.value, week).Success?
    ensures AcceptNonNegative(parsed).Some? ==> AcceptNonNegative(parsed) == parsed
  {
  }

  lemma AcceptWeekAgrees(parsed: Option<int>, name: string, cropFactor: real)
    requires !AllSpace(name) && cropFactor >= 0.0
    ensures AcceptWeek(parsed).Some? <==> parsed.Some? && NewField(name, cropFactor, parsed.value).Success?
    ensures AcceptWeek(parsed).Some? ==> AcceptWeek(parsed) == parsed
  {
  }

  /**
   * An ET0 the prompt accepts is exactly a parsed number the `WeatherData`
   * constructor accepts for a well-shaped date, and it is kept as parsed.
   */
  lemma Et0InputAgreesWithModel(value: string, parseFloat: string -> Option<real>, date: string)
    requires IsDateShaped(date)
    ensures ValidateEt0Input(value, parseFloat).Some? <==>
      parseFloat(Strip(value)).Some? && NewWeatherData(date, parseFloat(Strip(value)).value).Success?
    ensures ValidateEt0Input(value, parseFloat).Some? ==>
      ValidateEt0Input(value, parseFloat) == parseFloat(Strip(value))
  {
    AcceptNonNegativeEt0(parseFloat(Strip(value)), date);
  }

  /**
   * A crop factor the prompt accepts is exactly a parsed number the `Field`
   * constructor accepts (for a non-blank name and a week of at least 1),
   * and it is kept as parsed.
   */
  lemma CropFactorInputAgreesWithModel(value: string, parseFloat: string -> Option<real>, name: string, week: int)
    requires !AllSpace(name) && week >= 1
    ensures ValidateCropFactorInput(value, parseFloat).Some? <==>
      parseFloat(Strip(value)).Some? && NewField(name, parseFloat(Strip(value)).value, week).Success?
    ensures ValidateCropFactorInput(value, parseFloat).Some? ==>
      ValidateCropFactorInput(value, parseFloat) == parseFloat(Strip(value))
  {
    AcceptNonNegativeCropFactor(parseFloat(Strip(value)), name, week);
  }

  /**
   * A fertilizer week the prompt accepts is exactly a parsed number the
   * `Field` constructor accepts (for a non-blank name and a crop factor
   * that is not negative), and it is kept as parsed.
   */
  lemma FertilizerWeekInputAgreesWithModel(value: string, parseInt: string -> Option<int>, name: string, cropFactor: real)
    requires !AllSpace(name) && cropFactor >= 0.0
    ensures ValidateFertilizerWeekInput(value, parseInt).Some? <==>
      parseInt(Strip(value)).Some? && NewField(name, cropFactor, parseInt(Strip(value)).value).Success?
    ensures ValidateFertilizerWeekInput(value, parseInt).Some? ==>
      ValidateFertilizerWeekInput(value, parseInt) == parseInt(Strip(value))
  {
    AcceptWeekAgrees(parseInt(Strip(value)), name, cropFactor);
  }

  /**
   * The callers strip the line before validating it, and the validators
   * strip again: the second strip changes nothing.
   */
  lemma ValidatorsIgnorePadding(value: string, parseFloat: string -> Option<real>, parseInt: string -> Option<int>)
    ensures ValidateEt0Input(Strip(value), parseFloat) == ValidateEt0Input(value, parseFloat)
    ensures ValidateCropFactorInput(Strip(value), parseFloat) == ValidateCropFactorInput(value, parseFloat)
    ensures ValidateFertilizerWeekInput(Strip(value), parseInt) == ValidateFertilizerWeekInput(value, parseInt)
  {
    StripIdempotent(value);
  }

  /**
   * What `add_field` collects (a stripped name that is not empty, and two
   * accepted numbers) always builds a `Field`.
   */
  lemma AddFieldInputsBuildField(
    name: string, cropFactorInput: string, weekInput: string,
    parseFloat: string -> Option<real>, parseInt: string -> Option<int>)
    requires Strip(name) != ""
    requires ValidateCropFactorInput(cropFactorInput, parseFloat).Some?
    requires ValidateFertilizerWeekInput(weekInput, parseInt).Some?
    ensures NewField(Strip(name),
                     ValidateCropFactorInput(cropFactorInput, parseFloat).value,
                     ValidateFertilizerWeekInput(weekInput, parseInt).value).Success?
  {
    var n := Strip(name);
    assert !IsSpace(n[0]);
  }

  // ---------------------------------------------------------------------------
  // The crop-factor filter and the two checks of the ETc view
  // ---------------------------------------------------------------------------

  /** `[f for f in fields if f.crop_factor >= 0]`, in the order of `fields`. */
  function ValidFields(fs: seq<Field>): (r: seq<Field>)
    ensures |r| <= |fs|
    ensures forall f :: f in r <==> f in fs && f.cropFactor >= 0.0
  {
    if fs == [] then []
    else
      var n := |fs| - 1;
      assert fs == fs[..n] + [fs[n]];
      ValidFields(fs[..n]) + (if fs[n].cropFactor >= 0.0 then [fs[n]] else [])
  }

  /** The names of the fields whose crop factor is negative, in the order of `fields`. */
  function InvalidNames(fs: seq<Field>): (r: seq<string>)
    ensures forall name :: name in r <==> exists f | f in fs :: f.name == name && f.cropFactor < 0.0
  {
    if fs == [] then []
    else
      var n := |fs| - 1;
      assert fs == fs[..n] + [fs[n]];
      InvalidNames(fs[..n]) + (if fs[n].cropFactor < 0.0 then [fs[n].name] else [])
  }

  /** Every field is either kept by the filter or named as invalid, never both. */
  lemma {:induction false} FilterPartition(fs: seq<Field>)
    ensures |ValidFields(fs)| + |InvalidNames(fs)| == |fs|
  {
    if fs != [] {
      FilterPartition(fs[..|fs| - 1]);
    }
  }

  /** Fields that passed the `Field` constructor all survive the filter and none is named invalid. */
  lemma {:induction false} ConstructedFieldsAllValid(fs: seq<Field>)
    requires forall f | f in fs :: f.cropFactor >= 0.0
    ensures ValidFields(fs) == fs
  {
    if fs != [] {
      var n := |fs| - 1;
      assert fs == fs[..n] + [fs[n]];
      assert fs[n] in fs;
      ConstructedFieldsAllValid(fs[..n]);
    }
  }

  lemma ConstructedFieldsNoneInvalid(fs: seq<Field>)
    requires forall f | f in fs :: f.cropFactor >= 0.0
    ensures InvalidNames(fs) == []
  {
  }

  /** The requested dates that no weather row has, in request order. */
  function Missing(dates: seq<string>, ws: seq<WeatherData>): (r: seq<string>)
    ensures forall d :: d in r <==> d in dates && d !in Dates(ws)
  {
    if dates == [] then []
    else
      var n := |dates| - 1;
      assert dates == dates[..n] + [dates[n]];
      Missing(dates[..n], ws) + (if dates[n] in Dates(ws) then [] else [dates[n]])
  }

  /** Nothing is missing exactly when every requested date has a weather row. */
  lemma NothingMissing(dates: seq<string>, ws: seq<WeatherData>)
    ensures Missing(dates, ws) == [] <==> Elems(dates) <= Elems(Dates(ws))
  {
    var r := Missing(dates, ws);
    if r != [] {
      assert r[0] in dates && r[0] !in Dates(ws);
      assert r[0] in Elems(dates) && r[0] !in Elems(Dates(ws));
    } else {
      forall d | d in Elems(dates) ensures d in Elems(Dates(ws)) {
        assert d !in r;
      }
    }
  }

  /** On the rows read for the request, a date is reported missing exactly when it has no stored ET0. */
  lemma MissingMeansNotStored(dates: seq<string>, ws: seq<WeatherData>, weather: map<string, real>)
    requires ListsWeather(ws, weather, Elems(dates) * weather.Keys)
    ensures forall d :: d in Missing(dates, ws) <==> d in dates && d !in weather
  {
    forall d | d in dates ensures d in Dates(ws) <==> d in weather {
      assert d in Elems(dates);
      if d in Dates(ws) {
        assert d in Elems(Dates(ws));
      }
      if d in weather {
        assert d in Elems(Dates(ws));
      }
    }
  }

  /** The `missing_dates` loop of `view_etc_table`. */
  method MissingDates(dates: seq<string>, ws: seq<WeatherData>) returns (missing: seq<string>)
    ensures missing == Missing(dates, ws)
  {
    missing := [];
    for i := 0 to |dates|
      invariant missing == Missing(dates[..i], ws)
    {
      var date := dates[i];
      assert dates[..i + 1][..i] == dates[..i];
      if !(exists k | 0 <= k < |ws| :: ws[k].date == date) {
        missing := missing + [date];
      } else {
        var k :| 0 <= k < |ws| && ws[k].date == date;
        assert Dates(ws)[k] == date;
      }
    }
    assert dates[..|dates|] == dates;
  }

  /** The `invalid_fields` loop of `view_etc_table`. */
  method InvalidFieldNames(fields: seq<Field>) returns (names: seq<string>)
    ensures names == InvalidNames(fields)
  {
    names := [];
    for i := 0 to |fields|
      invariant names == InvalidNames(fields[..i])
    {
      assert fields[..i + 1][..i] == fields[..i];
      if fields[i].cropFactor < 0.0 {
        names := names + [fields[i].name];
      }
    }
    assert fields[..|fields|] == fields;
  }

  // ---------------------------------------------------------------------------
  // Calculate and save
  // ---------------------------------------------------------------------------

  /** `(success, etc_results, valid_fields, weather_data)`, with `Failed` for `(False, None, None, None)`. */
  datatype EtcRun = Failed | Computed(results: EtcResults, validFields: seq<Field>, weather: seq<WeatherData>)

  /**
   * When `_calculate_and_save_etc_for_dates` succeeds: every stored field
   * reads back, there is at least one, every requested weather row reads
   * back, and the request names each date once and only dates that are
   * stored.
   */
  ghost predicate CanCompute(fields: map<string, FieldAttrs>, weather: map<string, real>, dates: seq<string>)
  {
    && fields != map[]
    && (forall n | n in fields :: RowValid(n, fields[n]))
    && (forall d | d in dates && d in weather :: IsValidWeather(WeatherData(d, weather[d])))
    && Distinct(dates)
    && Elems(dates) <= weather.Keys
  }

  /**
   * The two coverage tests on what was read (same length, same date set)
   * pass exactly when the request has no repeated date and every requested
   * date is stored.
   */
  lemma CoverageTest(dates: seq<string>, ws: seq<WeatherData>, weather: map<string, real>)
    requires ListsWeather(ws, weather, Elems(dates) * weather.Keys)
    ensures (|ws| == |dates| && Elems(Dates(ws)) == Elems(dates)) <==> (Distinct(dates) && Elems(dates) <= weather.Keys)
  {
    var e := Elems(dates);
    AscendingDistinct(Dates(ws));
    DistinctCard(Dates(ws));
    DistinctCard(dates);
    assert |Elems(Dates(ws))| == |ws|;
    if Distinct(dates) && e <= weather.Keys {
      assert e * weather.Keys == e;
    }
    if |ws| == |dates| && Elems(Dates(ws)) == e {
      assert e * weather.Keys == e;
      assert e <= weather.Keys;
    }
  }

  lemma AscendingDistinct(s: seq<string>)
    requires Ascending(s)
    ensures Distinct(s)
  {
    forall i, j | 0 <= i < j < |s| ensures s[i] != s[j] {
      if s[i] == s[j] {
        LessIrreflexive(s[i]);
      }
    }
  }

  lemma ListedFieldsValid(fs: seq<Field>, table: map<string, FieldAttrs>)
    requires ListsFields(fs, table)
    requires forall n | n in table :: RowValid(n, table[n])
    ensures forall f | f in fs :: IsValidField(f)
  {
    forall f | f in fs ensures IsValidField(f) {
      var i :| 0 <= i < |fs| && fs[i] == f;
      assert RowValid(f.name, table[f.name]);
    }
  }

  lemma ListedWeatherValid(ws: seq<WeatherData>, weather: map<string, real>, keys: set<string>)
    requires ListsWeather(ws, weather, keys)
    requires forall d | d in keys :: IsValidWeather(WeatherData(d, weather[d]))
    ensures forall w | w in ws :: IsValidWeather(w)
  {
    forall w | w in ws ensures IsValidWeather(w) {
      var i :| 0 <= i < |ws| && ws[i] == w;
      assert Dates(ws)[i] == w.date;
    }
  }

  /**
   * `_calculate_and_save_etc_for_dates`. Any failure leaves the store as it
   * was. On success the fields are the stored ones (the crop-factor filter
   * drops nothing, because the read already refuses a negative crop
   * factor), the weather rows are the requested ones ascending by date, the
   * results are the calculator's table for them, and the ETc rows of the
   * store show one batch save of those results at time `now`.
   */
  method CalculateAndSaveEtcForDates(store: Store, dates: seq<string>, now: string) returns (run: EtcRun)
    modifies store
    ensures store.fields == old(store.fields) && store.weather == old(store.weather)
    ensures run.Computed? <==> CanCompute(old(store.fields), old(store.weather), dates)
    ensures run.Failed? ==> store.etc == old(store.etc)
    ensures run.Computed? ==>
      && ListsFields(run.validFields, store.fields)
      && (forall f | f in run.validFields :: IsValidField(f))
      && ListsWeather(run.weather, store.weather, Elems(dates))
      && (forall w | w in run.weather :: IsValidWeather(w))
      && run.results == EtcTable(run.validFields, run.weather)
      && Replaced(old(store.etc), store.etc, BatchPairs(run.results, run.weather), run.results, now)
  {
    var fieldsRead := store.GetAllFields();
    if fieldsRead.Failure? {
      return Failed;
    }
    var fields := fieldsRead.value;
    if |fields| == 0 {
      assert store.fields == map[];
      return Failed;
    }
    var weatherRead := store.GetWeatherDataByDates(dates);
    if weatherRead.Failure? {
      return Failed;
    }
    var weatherData := weatherRead.value;
    CoverageTest(dates, weatherData, store.weather);
    if |weatherData| != |dates| {
      return Failed;
    }
    if Elems(Dates(weatherData)) != Elems(dates) {
      return Failed;
    }
    ReadsAllowCompute(store.fields, store.weather, dates, fields);
    ListedFieldsValid(fields, store.fields);
    ConstructedFieldsAllValid(fields);
    var validFields := ValidFields(fields);
    if |validFields| == 0 {
      // Unreachable: every field read back has a crop factor that is not negative.
      assert false;
      return Failed;
    }
    assert Elems(dates) * store.weather.Keys == Elems(dates);
    ListedWeatherValid(weatherData, store.weather, Elems(dates));
    var results := CalculateEtcForAllFields(validFields, weatherData);
    store.SaveEtcCalculationsBatch(results, weatherData, now);
    return Computed(results, validFields, weatherData);
  }

  lemma ReadsAllowCompute(table: map<string, FieldAttrs>, weather: map<string, real>, dates: seq<string>, fs: seq<Field>)
    requires |fs| == |table| && |fs| != 0
    requires forall n | n in table :: RowValid(n, table[n])
    requires forall d | d in dates && d in weather :: IsValidWeather(WeatherData(d, weather[d]))
    requires Distinct(dates) && Elems(dates) <= weather.Keys
    ensures CanCompute(table, weather, dates)
  {
    assert table != map[];
  }

  /**
   * After a successful run, the ETc history of any field and requested
   * date is the single row holding that field's ETc on that day, stamped
   * with the run's time.
   */
  lemma RunRecordsEveryCell(fs: seq<Field>, ws: seq<WeatherData>, before: seq<EtcRow>, after: seq<EtcRow>, now: string, i: nat, j: nat)
    requires i < |fs| && j < |ws|
    requires forall a, b | 0 <= a < b < |fs| :: fs[a].name != fs[b].name
    requires Ascending(Dates(ws))
    requires IsValidField(fs[i]) && IsValidWeather(ws[j])
    requires Replaced(before, after, BatchPairs(EtcTable(fs, ws), ws), EtcTable(fs, ws), now)
    ensures EtcHistory(after, Some(fs[i].name), Some(ws[j].date))
            == [EtcRow(fs[i].name, ws[j].date, CalculateEtc(fs[i], ws[j]), now)]
  {
    AscendingDistinct(Dates(ws));
    EtcTableCell(fs, ws, i, j);
    var p := (fs[i].name, ws[j].date);
    assert Dates(ws)[j] == ws[j].date;
    assert p in BatchPairs(EtcTable(fs, ws), ws);
    HistoryAfterBatch(before, after, BatchPairs(EtcTable(fs, ws), ws), EtcTable(fs, ws), now, p);
  }

  /** In a listing of a field table, the row of a stored name is that of its stored field. */
  lemma RowOf(fs: seq<Field>, table: map<string, FieldAttrs>, ws: seq<WeatherData>, n: string)
    requires ListsFields(fs, table) && n in table
    ensures n in EtcTable(fs, ws)
    ensures EtcTable(fs, ws)[n] == DateRow(Field(n, table[n].cropFactor, table[n].fertilizerWeek), ws)
  {
    assert n in Names(fs);
    var i :| 0 <= i < |fs| && fs[i].name == n;
    EtcTableLastWins(fs, ws, i);
  }

  /** The calculator's table does not depend on the order in which the fields were listed. */
  lemma SameTable(fs1: seq<Field>, fs2: seq<Field>, table: map<string, FieldAttrs>, ws: seq<WeatherData>)
    requires ListsFields(fs1, table) && ListsFields(fs2, table)
    ensures EtcTable(fs1, ws) == EtcTable(fs2, ws)
  {
    forall n | n in table ensures EtcTable(fs1, ws)[n] == EtcTable(fs2, ws)[n] {
      RowOf(fs1, table, ws, n);
      RowOf(fs2, table, ws, n);
    }
  }

  /** Two strictly ascending lists with the same elements are the same list. */
  lemma {:induction false} AscendingUnique(a: seq<string>, b: seq<string>)
    requires Ascending(a) && Ascending(b) && Elems(a) == Elems(b)
    ensures a == b
  {
    if a != [] {
      assert a[0] in Elems(b);
      assert b != [];
      if a[0] != b[0] {
        var k :| 0 <= k < |b| && b[k] == a[0];
        assert b[0] in Elems(a);
        var m :| 0 <= m < |a| && a[m] == b[0];
        assert Less(b[0], a[0]) && Less(a[0], b[0]);
        LessAsymmetric(a[0], b[0]);
        assert false;
      }
      TailElems(a);
      TailElems(b);
      AscendingUnique(a[1..], b[1..]);
      assert a == [a[0]] + a[1..] && b == [b[0]] + b[1..];
    }
  }

  /** Dropping the head of an ascending list removes exactly that element. */
  lemma TailElems(a: seq<string>)
    requires Ascending(a) && a != []
    ensures Elems(a[1..]) == Elems(a) - {a[0]}
  {
    forall x | x in Elems(a[1..]) ensures x != a[0] {
      var k :| 0 <= k < |a| - 1 && a[1..][k] == x;
      assert Less(a[0], a[k + 1]);
      LessIrreflexive(a[0]);
    }
    assert a == [a[0]] + a[1..];
  }

  /** A weather listing ascending by date, with a given date set, is unique. */
  lemma WeatherListingUnique(ws1: seq<WeatherData>, ws2: seq<WeatherData>, table: map<string, real>, keys: set<string>)
    requires ListsWeather(ws1, table, keys) && ListsWeather(ws2, table, keys)
    ensures ws1 == ws2
  {
    AscendingUnique(Dates(ws1), Dates(ws2));
    forall i | 0 <= i < |ws1| ensures ws1[i] == ws2[i] {
      assert Dates(ws1)[i] == ws1[i].date && Dates(ws2)[i] == ws2[i].date;
    }
  }

  /**
   * Running the calculation twice for the same dates on an unchanged store:
   * the requires are what `CalculateAndSaveEtcForDates` ensures of each
   * successful run. Both runs read the same weather and compute the same
   * results, whatever order the fields were listed in, and the ETc table
   * ends as one batch of those results at the second run's time, with one
   * row per field and date.
   */
  lemma RunTwice(table: map<string, FieldAttrs>, weather: map<string, real>, dates: seq<string>,
                 fs1: seq<Field>, ws1: seq<WeatherData>, fs2: seq<Field>, ws2: seq<WeatherData>,
                 before: seq<EtcRow>, mid: seq<EtcRow>, after: seq<EtcRow>, t1: string, t2: string)
    requires ListsFields(fs1, table) && ListsWeather(ws1, weather, Elems(dates))
    requires ListsFields(fs2, table) && ListsWeather(ws2, weather, Elems(dates))
    requires Replaced(before, mid, BatchPairs(EtcTable(fs1, ws1), ws1), EtcTable(fs1, ws1), t1)
    requires Replaced(mid, after, BatchPairs(EtcTable(fs2, ws2), ws2), EtcTable(fs2, ws2), t2)
    ensures ws1 == ws2 && EtcTable(fs1, ws1) == EtcTable(fs2, ws2)
    ensures Replaced(before, after, BatchPairs(EtcTable(fs1, ws1), ws1), EtcTable(fs1, ws1), t2)
    ensures forall p | p in BatchPairs(EtcTable(fs1, ws1), ws1) :: Only(after, p) == [NewRow(p, EtcTable(fs1, ws1), t2)]
  {
    WeatherListingUnique(ws1, ws2, weather, Elems(dates));
    SameTable(fs1, fs2, table, ws1);
    var results := EtcTable(fs1, ws1);
    var s := BatchPairs(results, ws1);
    ReplacedTwice(before, mid, after, s, results, t1, t2);
    forall p | p in s ensures Only(after, p) == [NewRow(p, results, t2)] {
      ReplacedTouched(before, after, s, results, t2, p);
    }
  }
}
