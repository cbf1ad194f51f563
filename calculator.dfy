/**
 * ETc derivation (calculator.py): ETc = ET0 x Kc, for one field and day, and
 * for every field over every day as the two-level map
 * `field name -> date -> ETc`.
 */
module Calculator {
  import opened Seqs
  import opened Models

  /** `{field_name: {date: etc_value}}`. */
  type EtcResults = map<string, map<string, real>>

  /** `calculate_etc`: the crop evapotranspiration of one field on one day. */
  function CalculateEtc(f: Field, w: WeatherData): (r: real)
    ensures f.cropFactor >= 0.0 && w.et0 >= 0.0 ==> r >= 0.0
    ensures f.cropFactor == 0.0 || w.et0 == 0.0 ==> r == 0.0
    ensures f.cropFactor == 1.0 ==> r == w.et0
  {
    w.et0 * f.cropFactor
  }

  /**
   * The inner map one field receives: an entry for every weather date, a
   * later entry for a repeated date overwriting the earlier one.
   */
  function DateRow(f: Field, ws: seq<WeatherData>): (r: map<string, real>)
    ensures r.Keys == Elems(Dates(ws))
  {
    if ws == [] then map[]
    else
      var n := |ws| - 1;
      assert Dates(ws) == Dates(ws[..n]) + [ws[n].date];
      DateRow(f, ws[..n])[ws[n].date := CalculateEtc(f, ws[n])]
  }

  /**
   * What `calculate_etc_for_all_fields` returns: an entry per field name, a
   * later field with a repeated name replacing the earlier one's row.
   */
  function EtcTable(fields: seq<Field>, ws: seq<WeatherData>): (r: EtcResults)
    ensures r.Keys == Names(fields)
    ensures forall name | name in r :: r[name].Keys == Elems(Dates(ws))
  {
    if fields == [] then map[]
    else
      var n := |fields| - 1;
      assert fields == fields[..n] + [fields[n]];
      EtcTable(fields[..n], ws)[fields[n].name := DateRow(fields[n], ws)]
  }

  /** The value stored for a date is the ETc of its last occurrence in the weather list. */
  lemma {:induction false} DateRowLastWins(f: Field, ws: seq<WeatherData>, j: nat)
    requires j < |ws|
    requires forall k | j < k < |ws| :: ws[k].date != ws[j].date
    ensures DateRow(f, ws)[ws[j].date] == CalculateEtc(f, ws[j])
  {
    var n := |ws| - 1;
    if j < n {
      DateRowLastWins(f, ws[..n], j);
    }
  }

  /** The row stored for a name is that of the last field carrying it. */
  lemma {:induction false} EtcTableLastWins(fields: seq<Field>, ws: seq<WeatherData>, i: nat)
    requires i < |fields|
    requires forall k | i < k < |fields| :: fields[k].name != fields[i].name
    ensures EtcTable(fields, ws)[fields[i].name] == DateRow(fields[i], ws)
  {
    var n := |fields| - 1;
    if i < n {
      EtcTableLastWins(fields[..n], ws, i);
    }
  }

  /** With distinct names and distinct dates every cell is the ETc of its own field and day. */
  lemma EtcTableCell(fields: seq<Field>, ws: seq<WeatherData>, i: nat, j: nat)
    requires i < |fields| && j < |ws|
    requires forall a, b | 0 <= a < b < |fields| :: fields[a].name != fields[b].name
    requires Distinct(Dates(ws))
    ensures fields[i].name in EtcTable(fields, ws)
    ensures ws[j].date in EtcTable(fields, ws)[fields[i].name]
    ensures EtcTable(fields, ws)[fields[i].name][ws[j].date] == CalculateEtc(fields[i], ws[j])
  {
    EtcTableLastWins(fields, ws, i);
    forall k | j < k < |ws| ensures ws[k].date != ws[j].date {
      assert Dates(ws)[j] == ws[j].date && Dates(ws)[k] == ws[k].date;
    }
    DateRowLastWins(fields[i], ws, j);
    assert ws[j].date in Elems(Dates(ws));
  }

  /** Writing a key twice keeps the second value. */
  lemma UpdateTwice<K, V>(m: map<K, V>, k: K, v1: V, v2: V)
    ensures m[k := v1][k := v2] == m[k := v2]
  {
  }

  lemma DateRowGrows(f: Field, ws: seq<WeatherData>, j: nat)
    requires j < |ws|
    ensures DateRow(f, ws[..j + 1]) == DateRow(f, ws[..j])[ws[j].date := CalculateEtc(f, ws[j])]
  {
    assert ws[..j + 1][..j] == ws[..j];
  }

  lemma EtcTableGrows(fields: seq<Field>, ws: seq<WeatherData>, i: nat)
    requires i < |fields|
    ensures EtcTable(fields[..i + 1], ws) == EtcTable(fields[..i], ws)[fields[i].name := DateRow(fields[i], ws)]
  {
    assert fields[..i + 1][..i] == fields[..i];
  }

  /**
   * `calculate_etc_for_all_fields`: for each field in turn its entry is reset
   * to an empty map and then filled with one ETc per weather day.
   */
  method CalculateEtcForAllFields(fields: seq<Field>, ws: seq<WeatherData>) returns (results: EtcResults)
    ensures results == EtcTable(fields, ws)
  {
    results := map[];
    for i := 0 to |fields|
      invariant results == EtcTable(fields[..i], ws)
    {
      var f := fields[i];
      var row: map<string, real> := map[];
      UpdateTwice(EtcTable(fields[..i], ws), f.name, row, row);
      results := results[f.name := row];
      for j := 0 to |ws|
        invariant row == DateRow(f, ws[..j])
        invariant results == EtcTable(fields[..i], ws)[f.name := row]
      {
        var w := ws[j];
        DateRowGrows(f, ws, j);
        UpdateTwice(EtcTable(fields[..i], ws), f.name, row, row[w.date := CalculateEtc(f, w)]);
        row := row[w.date := CalculateEtc(f, w)];
        results := results[f.name := row];
      }
      EtcTableGrows(fields, ws, i);
      assert ws[..|ws|] == ws;
    }
    assert fields[..|fields|] == fields;
  }
}
