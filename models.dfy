/**
 * The two value types of the application (models.py). Each validates itself
 * when it is built: a failed check is the `ValueError` the constructor raises.
 * Python's `isinstance` checks are covered by Dafny's static types.
 */
module Models {
  import opened Wrappers
  import opened Text

  /** An agricultural field: its name, crop coefficient Kc and fertilizer week. */
  datatype Field = Field(name: string, cropFactor: real, fertilizerWeek: int)

  /** The reference evapotranspiration ET0 (mm/day) observed on one date. */
  datatype WeatherData = WeatherData(date: string, et0: real)

  /** The `ValueError`s the two constructors raise, one per check. */
  datatype ValidationError =
    | BlankFieldName
    | NegativeCropFactor
    | WeekBelowOne
    | MalformedDate
    | NegativeEt0

  /** What every successfully built `Field` satisfies. */
  predicate IsValidField(f: Field)
  {
    !AllSpace(f.name) && f.cropFactor >= 0.0 && f.fertilizerWeek >= 1
  }

  /** The cheap `YYYY-MM-DD` shape test: ten characters, '-' at indices 4 and 7; digits are not checked. */
  predicate IsDateShaped(date: string)
  {
    |date| == 10 && date[4] == '-' && date[7] == '-'
  }

  /** What every successfully built `WeatherData` satisfies. */
  predicate IsValidWeather(w: WeatherData)
  {
    IsDateShaped(w.date) && w.et0 >= 0.0
  }

  /**
   * `Field(name, crop_factor, fertilizer_week)`: the checks run in source
   * order, so the first failing one names the error; on success the values
   * are kept as given (the name is tested stripped but stored unstripped).
   */
  function NewField(name: string, cropFactor: real, fertilizerWeek: int): (r: Result<Field, ValidationError>)
    ensures r.Success? <==> IsValidField(Field(name, cropFactor, fertilizerWeek))
    ensures r.Success? ==> r.value == Field(name, cropFactor, fertilizerWeek)
    ensures r == Failure(BlankFieldName) <==> AllSpace(name)
    ensures r == Failure(NegativeCropFactor) <==> !AllSpace(name) && cropFactor < 0.0
    ensures r == Failure(WeekBelowOne) <==> !AllSpace(name) && cropFactor >= 0.0 && fertilizerWeek < 1
  {
    if Strip(name) == "" then Failure(BlankFieldName)
    else if cropFactor < 0.0 then Failure(NegativeCropFactor)
    else if fertilizerWeek < 1 then Failure(WeekBelowOne)
    else Success(Field(name, cropFactor, fertilizerWeek))
  }

  /**
   * `WeatherData(date, et0)`: a malformed date is reported before a negative
   * ET0; on success the values are kept as given.
   */
  function NewWeatherData(date: string, et0: real): (r: Result<WeatherData, ValidationError>)
    ensures r.Success? <==> IsValidWeather(WeatherData(date, et0))
    ensures r.Success? ==> r.value == WeatherData(date, et0)
    ensures r == Failure(MalformedDate) <==> !IsDateShaped(date)
    ensures r == Failure(NegativeEt0) <==> IsDateShaped(date) && et0 < 0.0
  {
    if |date| != 10 || date[4] != '-' || date[7] != '-' then Failure(MalformedDate)
    else if et0 < 0.0 then Failure(NegativeEt0)
    else Success(WeatherData(date, et0))
  }

  /** A name with a visible character is accepted even when padded: nothing is trimmed. */
  lemma PaddedNameKept(name: string, cropFactor: real, fertilizerWeek: int)
    requires |name| > 0 && !IsSpace(name[0])
    requires cropFactor >= 0.0 && fertilizerWeek >= 1
    ensures NewField(name + " ", cropFactor, fertilizerWeek) == Success(Field(name + " ", cropFactor, fertilizerWeek))
  {
    assert (name + " ")[0] == name[0];
  }

  /** Only the shape of a date is checked: a date made of letters passes. */
  lemma DigitsNotChecked(et0: real)
    requires et0 >= 0.0
    ensures NewWeatherData("abcd-ef-gh", et0) == Success(WeatherData("abcd-ef-gh", et0))
  {
  }

  /** `[wd.date for wd in weather_data_list]`. */
  function Dates(ws: seq<WeatherData>): (r: seq<string>)
    ensures |r| == |ws|
    ensures forall i | 0 <= i < |ws| :: r[i] == ws[i].date
  {
    seq(|ws|, i requires 0 <= i < |ws| => ws[i].date)
  }

  /** The set of names of a field list. */
  function Names(fields: seq<Field>): set<string>
  {
    set f | f in fields :: f.name
  }
}
