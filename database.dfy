/**
 * The persistence layer (database.py) as a class holding its three tables:
 * `fields` keyed by name, `weather_data` keyed by its unique date, and the
 * `etc_calculations` rows in table order. Writes do not validate (the schema
 * has no CHECK constraints); reads rebuild `Field` and `WeatherData` values
 * and therefore fail on a row their constructors reject.
 */
module Database {
  import opened Wrappers
  import opened Seqs
  import opened Text
  import opened Models
  import opened Calculator
  import opened EtcRecords

  /** The non-key columns of a `fields` row. */
  datatype FieldAttrs = FieldAttrs(cropFactor: real, fertilizerWeek: int)

  /** The exceptions the store raises itself: IntegrityError on a duplicate name, ValueError on a missing one. */
  datatype StoreError = DuplicateKey | NotFound

  /** The outcome of a write that may be refused. */
  datatype Outcome = Done | Rejected(error: StoreError)

  /** The three fields seeded into an empty table. */
  const DefaultFields: map<string, FieldAttrs> :=
    map["DF1B" := FieldAttrs(0.0, 1), "SS2B" := FieldAttrs(0.0, 1), "MF8B" := FieldAttrs(0.0, 1)]

  /** The seeded defaults are themselves valid fields, so they can always be read back. */
  lemma DefaultFieldsValid()
    ensures |DefaultFields| == 3
    ensures forall n | n in DefaultFields :: IsValidField(Field(n, DefaultFields[n].cropFactor, DefaultFields[n].fertilizerWeek))
  {
    assert !IsSpace('D') && !IsSpace('S') && !IsSpace('M');
    assert "DF1B"[0] == 'D' && "SS2B"[0] == 'S' && "MF8B"[0] == 'M';
    assert DefaultFields.Keys == {"DF1B", "SS2B", "MF8B"};
  }

  /** A stored row that reads back as a `Field`. */
  predicate RowValid(name: string, a: FieldAttrs)
  {
    IsValidField(Field(name, a.cropFactor, a.fertilizerWeek))
  }

  /** Reading one stored row back: the `Field(...)` call of `get_field` and `get_all_fields`. */
  function LoadField(name: string, a: FieldAttrs): (r: Result<Field, ValidationError>)
    ensures r.Success? <==> RowValid(name, a)
    ensures r.Success? ==> r.value == Field(name, a.cropFactor, a.fertilizerWeek)
  {
    NewField(name, a.cropFactor, a.fertilizerWeek)
  }

  /** `fs` lists the table: every element is a stored row, no name twice, every stored name present. */
  ghost predicate ListsFields(fs: seq<Field>, table: map<string, FieldAttrs>)
  {
    && (forall i | 0 <= i < |fs| :: fs[i].name in table && table[fs[i].name] == FieldAttrs(fs[i].cropFactor, fs[i].fertilizerWeek))
    && (forall i, j | 0 <= i < j < |fs| :: fs[i].name != fs[j].name)
    && Names(fs) == table.Keys
  }

  /** `ws` lists the rows of `table` whose dates are `keys`, ascending by date, each once. */
  ghost predicate ListsWeather(ws: seq<WeatherData>, table: map<string, real>, keys: set<string>)
  {
    && Ascending(Dates(ws))
    && Elems(Dates(ws)) == keys
    && (forall i | 0 <= i < |ws| :: ws[i].date in table && table[ws[i].date] == ws[i].et0)
  }

  /** A finite non-empty set of strings has a least element. */
  lemma {:induction false} LeastExists(keys: set<string>) returns (m: string)
    requires keys != {}
    ensures m in keys && forall x | x in keys :: !Less(x, m)
  {
    var y :| y in keys;
    if keys == {y} {
      m := y;
      LessIrreflexive(y);
    } else {
      var m' := LeastExists(keys - {y});
      if Less(y, m') {
        m := y;
        forall x | x in keys ensures !Less(x, y) {
          if x == y {
            LessIrreflexive(y);
          } else if Less(x, y) {
            LessTransitive(x, y, m');
          }
        }
      } else {
        m := m';
      }
    }
  }

  /** The keys of a set in some order, each once: a table scan without ORDER BY. */
  method ListKeys(keys: set<string>) returns (s: seq<string>)
    ensures Distinct(s) && Elems(s) == keys
  {
    s := [];
    var rest := keys;
    while rest != {}
      invariant Distinct(s)
      invariant Elems(s) + rest == keys && Elems(s) !! rest
      decreases rest
    {
      var k :| k in rest;
      s := s + [k];
      rest := rest - {k};
    }
  }

  /** `ORDER BY date` over a set of distinct dates: each once, strictly ascending. */
  method SortedDates(keys: set<string>) returns (s: seq<string>)
    ensures Ascending(s)
    ensures Elems(s) == keys
  {
    s := [];
    var rest := keys;
    while rest != {}
      invariant Ascending(s)
      invariant Elems(s) + rest == keys
      invariant forall i, y | 0 <= i < |s| && y in rest :: Less(s[i], y)
      decreases rest
    {
      ghost var least := LeastExists(rest);
      var m :| m in rest && forall x | x in rest :: !Less(x, m);
      forall y | y in rest - {m} ensures Less(m, y) {
        LessTotal(m, y);
      }
      s := s + [m];
      rest := rest - {m};
    }
  }

  class Store {
    var fields: map<string, FieldAttrs>
    var weather: map<string, real>
    var etc: seq<EtcRow>

    /** A freshly created database: three empty tables. */
    constructor ()
      ensures fields == map[] && weather == map[] && etc == []
    {
      fields, weather, etc := map[], map[], [];
    }

    /** `initialize_default_fields`: seeds the three defaults only when the fields table is empty. */
    method InitializeDefaultFields()
      modifies this
      ensures fields == if old(fields) == map[] then DefaultFields else old(fields)
      ensures weather == old(weather) && etc == old(etc)
    {
      if |fields| == 0 {
        fields := DefaultFields;
      }
    }

    /** `field_exists`: whether a row with exactly this name is stored. */
    function FieldExists(name: string): (b: bool)
      reads this
      ensures b <==> name in fields
    {
      name in fields
    }

    /**
     * `get_field`: `None` for an absent name; otherwise the stored row rebuilt
     * as a `Field`, which fails when the stored values do not validate.
     */
    function GetField(name: string): (r: Result<Option<Field>, ValidationError>)
      reads this
      ensures name !in fields ==> r == Success(None)
      ensures name in fields ==>
        (r.Success? <==> IsValidField(Field(name, fields[name].cropFactor, fields[name].fertilizerWeek)))
      ensures r.Success? && r.value.Some? ==>
        name in fields && r.value.value == Field(name, fields[name].cropFactor, fields[name].fertilizerWeek)
      ensures name in fields && r.Success? ==>
        r.value == Some(Field(name, fields[name].cropFactor, fields[name].fertilizerWeek))
    {
      if name in fields then
        var a := fields[name];
        match NewField(name, a.cropFactor, a.fertilizerWeek)
        case Success(f) => Success(Some(f))
        case Failure(e) => Failure(e)
      else Success(None)
    }

    /**
     * `create_field`: refused for a name already stored, leaving the table as
     * it was; otherwise exactly one row is added, which reads back unchanged
     * whenever it is a valid field.
     */
    method CreateField(name: string, cropFactor: real, fertilizerWeek: int) returns (r: Outcome)
      modifies this
      ensures r == if name in old(fields) then Rejected(DuplicateKey) else Done
      ensures fields == if r.Done? then old(fields)[name := FieldAttrs(cropFactor, fertilizerWeek)] else old(fields)
      ensures weather == old(weather) && etc == old(etc)
      ensures r.Done? ==> FieldExists(name)
      ensures r.Done? && IsValidField(Field(name, cropFactor, fertilizerWeek)) ==>
        GetField(name) == Success(Some(Field(name, cropFactor, fertilizerWeek)))
    {
      if name in fields {
        return Rejected(DuplicateKey);
      }
      fields := fields[name := FieldAttrs(cropFactor, fertilizerWeek)];
      return Done;
    }

    /**
     * `get_all_fields`: every stored row rebuilt as a `Field`, in no particular
     * order; the first row that does not validate makes the whole read fail.
     */
    method GetAllFields() returns (r: Result<seq<Field>, ValidationError>)
      ensures r.Success? <==> forall n | n in fields :: RowValid(n, fields[n])
      ensures r.Success? ==> ListsFields(r.value, fields) && |r.value| == |fields|
      ensures r.Failure? ==> exists n | n in fields :: LoadField(n, fields[n]) == Failure(r.error)
    {
      var table := fields;
      var order := ListKeys(table.Keys);
      var acc: seq<Field> := [];
      for i := 0 to |order|
        invariant |acc| == i
        invariant forall k | 0 <= k < i :: order[k] in table && acc[k] == Field(order[k], table[order[k]].cropFactor, table[order[k]].fertilizerWeek)
        invariant forall k | 0 <= k < i :: RowValid(order[k], table[order[k]])
      {
        var name := order[i];
        assert name in Elems(order);
        var built := LoadField(name, table[name]);
        if built.Failure? {
          assert !RowValid(name, fields[name]);
          return Failure(built.error);
        }
        acc := acc + [built.value];
        assert acc[i] == Field(name, table[name].cropFactor, table[name].fertilizerWeek);
      }
      ListingOfKeys(acc, order, table);
      return Success(acc);
    }

    /** `update_field`: an absent name is refused with no change; otherwise both attributes are overwritten and nothing else. */
    method UpdateField(name: string, cropFactor: real, fertilizerWeek: int) returns (r: Outcome)
      modifies this
      ensures r == if name in old(fields) then Done else Rejected(NotFound)
      ensures fields == if r.Done? then old(fields)[name := FieldAttrs(cropFactor, fertilizerWeek)] else old(fields)
      ensures weather == old(weather) && etc == old(etc)
    {
      if name !in fields {
        return Rejected(NotFound);
      }
      fields := fields[name := FieldAttrs(cropFactor, fertilizerWeek)];
      return Done;
    }

    /**
     * `delete_field`: an absent name is refused; otherwise only that row goes.
     * The weather and ETc tables are not touched: history outlives the field.
     */
    method DeleteField(name: string) returns (r: Outcome)
      modifies this
      ensures r == if name in old(fields) then Done else Rejected(NotFound)
      ensures fields == old(fields) - {name}
      ensures weather == old(weather) && etc == old(etc)
      ensures !FieldExists(name) && GetField(name) == Success(None)
    {
      if name !in fields {
        return Rejected(NotFound);
      }
      fields := fields - {name};
      return Done;
    }

    /** `save_weather_data` (INSERT OR REPLACE): the date ends with exactly the new ET0; other dates keep theirs. */
    method SaveWeatherData(date: string, et0: real)
      modifies this
      ensures weather == old(weather)[date := et0]
      ensures fields == old(fields) && etc == old(etc)
    {
      weather := weather[date := et0];
    }

    /** `get_weather_data_by_date`: `None` when absent; else the row rebuilt, failing when it does not validate. */
    function GetWeatherDataByDate(date: string): (r: Result<Option<WeatherData>, ValidationError>)
      reads this
      ensures date !in weather ==> r == Success(None)
      ensures date in weather ==> (r.Success? <==> IsValidWeather(WeatherData(date, weather[date])))
      ensures r.Success? && r.value.Some? ==>
        date in weather && r.value.value == WeatherData(date, weather[date])
      ensures date in weather && r.Success? ==> r.value == Some(WeatherData(date, weather[date]))
    {
      if date in weather then
        match NewWeatherData(date, weather[date])
        case Success(w) => Success(Some(w))
        case Failure(e) => Failure(e)
      else Success(None)
    }

    /** The rows of `keys` in date order, rebuilt one by one; the first invalid row fails the read. */
    method LoadWeather(keys: set<string>) returns (r: Result<seq<WeatherData>, ValidationError>)
      requires keys <= weather.Keys
      ensures r.Success? <==> forall d | d in keys :: IsValidWeather(WeatherData(d, weather[d]))
      ensures r.Success? ==> ListsWeather(r.value, weather, keys)
      ensures r.Failure? ==> exists d | d in keys :: NewWeatherData(d, weather[d]) == Failure(r.error)
    {
      var order := SortedDates(keys);
      var acc: seq<WeatherData> := [];
      for i := 0 to |order|
        invariant Dates(acc) == order[..i]
        invariant forall k | 0 <= k < i :: IsValidWeather(WeatherData(order[k], weather[order[k]]))
        invariant forall k | 0 <= k < |acc| :: acc[k].et0 == weather[acc[k].date]
      {
        assert order[i] in Elems(order);
        var built := NewWeatherData(order[i], weather[order[i]]);
        if built.Failure? {
          return Failure(built.error);
        }
        acc := acc + [built.value];
        assert Dates(acc) == order[..i] + [order[i]];
      }
      assert order[..|order|] == order;
      forall d | d in keys ensures IsValidWeather(WeatherData(d, weather[d])) {
        assert d in Elems(order);
      }
      return Success(acc);
    }

    /**
     * `get_weather_data_by_dates`: an empty request reads nothing and gives
     * `[]`; otherwise the stored rows whose date was requested, each once,
     * strictly ascending by date. Requested dates with no row are simply absent.
     */
    method GetWeatherDataByDates(dates: seq<string>) returns (r: Result<seq<WeatherData>, ValidationError>)
      ensures dates == [] ==> r == Success([])
      ensures r.Success? <==>
        forall d | d in dates && d in weather :: IsValidWeather(WeatherData(d, weather[d]))
      ensures r.Success? ==> ListsWeather(r.value, weather, Elems(dates) * weather.Keys)
      ensures r.Failure? ==>
        exists d | d in dates && d in weather :: NewWeatherData(d, weather[d]) == Failure(r.error)
    {
      if |dates| == 0 {
        assert Elems(dates) * weather.Keys == {};
        assert ListsWeather([], weather, {});
        return Success([]);
      }
      r := LoadWeather(Elems(dates) * weather.Keys);
    }

    /** `get_all_weather_data`: every stored row, strictly ascending by date. */
    method GetAllWeatherData() returns (r: Result<seq<WeatherData>, ValidationError>)
      ensures r.Success? <==> forall d | d in weather :: IsValidWeather(WeatherData(d, weather[d]))
      ensures r.Success? ==> ListsWeather(r.value, weather, weather.Keys)
      ensures r.Failure? ==> exists d | d in weather :: NewWeatherData(d, weather[d]) == Failure(r.error)
    {
      r := LoadWeather(weather.Keys);
    }

    /** `save_etc_calculation`: appends one row and deletes nothing. */
    method SaveEtcCalculation(fieldName: string, date: string, etcValue: real, calculatedAt: string)
      modifies this
      ensures etc == old(etc) + [EtcRow(fieldName, date, etcValue, calculatedAt)]
      ensures fields == old(fields) && weather == old(weather)
    {
      etc := etc + [EtcRow(fieldName, date, etcValue, calculatedAt)];
    }

    /**
     * `save_etc_calculations_batch`: for every field of the results and every
     * weather day the field has a value for, delete that pair's rows and
     * insert its new row, all under the one timestamp of the batch.
     */
    method SaveEtcCalculationsBatch(results: EtcResults, ws: seq<WeatherData>, calculatedAt: string)
      modifies this
      ensures Replaced(old(etc), etc, BatchPairs(results, ws), results, calculatedAt)
      ensures fields == old(fields) && weather == old(weather)
    {
      ghost var before := etc;
      ghost var done: set<Pair> := {};
      ReplacedNothing(before, results, calculatedAt);
      var pending := results.Keys;
      SettledNone(results, ws);
      while pending != {}
        invariant pending <= results.Keys
        invariant done == Settled(results, ws, pending)
        invariant Replaced(before, etc, done, results, calculatedAt)
        invariant fields == old(fields) && weather == old(weather)
        decreases pending
      {
        var fieldName :| fieldName in pending;
        var dateResults := results[fieldName];
        PartialNone(results, ws, fieldName);
        for j := 0 to |ws|
          invariant done == Settled(results, ws, pending) + Partial(results, ws, fieldName, j)
          invariant Replaced(before, etc, done, results, calculatedAt)
          invariant fields == old(fields) && weather == old(weather)
        {
          var date := ws[j].date;
          PartialGrows(results, ws, fieldName, j);
          if date in dateResults {
            ReplacedStep(before, etc, done, results, calculatedAt, (fieldName, date));
            etc := Drop(etc, {(fieldName, date)}) + [EtcRow(fieldName, date, dateResults[date], calculatedAt)];
            done := done + {(fieldName, date)};
          }
        }
        SettledGrows(results, ws, pending, fieldName);
        pending := pending - {fieldName};
      }
      SettledAll(results, ws);
    }
  }

  /** The pairs of a batch whose field is no longer pending. */
  ghost function Settled(results: EtcResults, ws: seq<WeatherData>, pending: set<string>): set<Pair>
  {
    set p | p in BatchPairs(results, ws) && p.0 !in pending
  }

  /** The pairs of field `name` among the first `j` weather dates. */
  ghost function Partial(results: EtcResults, ws: seq<WeatherData>, name: string, j: nat): set<Pair>
    requires name in results && j <= |ws|
  {
    set d | d in results[name] && d in Dates(ws[..j]) :: (name, d)
  }

  lemma SettledNone(results: EtcResults, ws: seq<WeatherData>)
    ensures Settled(results, ws, results.Keys) == {}
  {
  }

  lemma SettledAll(results: EtcResults, ws: seq<WeatherData>)
    ensures Settled(results, ws, {}) == BatchPairs(results, ws)
  {
  }

  lemma PartialNone(results: EtcResults, ws: seq<WeatherData>, name: string)
    requires name in results
    ensures Partial(results, ws, name, 0) == {}
  {
  }

  lemma PartialGrows(results: EtcResults, ws: seq<WeatherData>, name: string, j: nat)
    requires name in results && j < |ws|
    ensures Partial(results, ws, name, j + 1) ==
      if ws[j].date in results[name] then Partial(results, ws, name, j) + {(name, ws[j].date)}
      else Partial(results, ws, name, j)
  {
    assert Dates(ws[..j + 1]) == Dates(ws[..j]) + [ws[j].date];
  }

  lemma SettledGrows(results: EtcResults, ws: seq<WeatherData>, pending: set<string>, name: string)
    requires name in pending && name in results
    ensures Settled(results, ws, pending) + Partial(results, ws, name, |ws|) == Settled(results, ws, pending - {name})
  {
    assert ws[..|ws|] == ws;
  }

  /** Rows built one per key, from distinct keys covering the table, list the table. */
  lemma ListingOfKeys(fs: seq<Field>, order: seq<string>, table: map<string, FieldAttrs>)
    requires Distinct(order) && Elems(order) == table.Keys && |fs| == |order|
    requires forall k | 0 <= k < |order| :: order[k] in table && fs[k] == Field(order[k], table[order[k]].cropFactor, table[order[k]].fertilizerWeek)
    requires forall k | 0 <= k < |order| :: RowValid(order[k], table[order[k]])
    ensures ListsFields(fs, table) && |fs| == |table|
    ensures forall n | n in table :: RowValid(n, table[n])
  {
    forall n | n in table ensures n in Names(fs) && RowValid(n, table[n]) {
      assert n in Elems(order);
      var k :| 0 <= k < |order| && order[k] == n;
      assert fs[k] in fs;
    }
    forall f | f in fs ensures f.name in table {
      var k :| 0 <= k < |fs| && fs[k] == f;
    }
    DistinctCard(order);
    assert |table.Keys| == |table|;
  }
}
