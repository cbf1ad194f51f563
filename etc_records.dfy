/**
 * The `etc_calculations` table as a sequence of rows, with the meaning of the
 * statements database.py runs against it: the DELETE of one (field, date)
 * pair, what a whole batch save leaves behind, and the filtered history query
 * with its `ORDER BY calculated_at DESC`.
 */
module EtcRecords {
  import opened Wrappers
  import opened Text
  import opened Models
  import opened Calculator
  import opened Sorting

  /** One row: ETc for a field on a date, and the ISO timestamp of the computation. */
  datatype EtcRow = EtcRow(fieldName: string, date: string, etcValue: real, calculatedAt: string)

  /** A (field name, date) pair, the key of a calculation. */
  type Pair = (string, string)

  function PairOf(row: EtcRow): Pair
  {
    (row.fieldName, row.date)
  }

  /** The rows whose pair is outside `s`, in table order: a DELETE over the pairs in `s`. */
  function Drop(rows: seq<EtcRow>, s: set<Pair>): (r: seq<EtcRow>)
    ensures |r| <= |rows|
  {
    if rows == [] then []
    else (if PairOf(rows[0]) in s then [] else [rows[0]]) + Drop(rows[1..], s)
  }

  /** The rows of one pair, in table order. */
  function Only(rows: seq<EtcRow>, p: Pair): (r: seq<EtcRow>)
    ensures |r| <= |rows|
  {
    if rows == [] then []
    else (if PairOf(rows[0]) == p then [rows[0]] else []) + Only(rows[1..], p)
  }

  /** Every row a DELETE keeps was in the table and is outside the deleted pairs. */
  lemma {:induction false} DropKeeps(rows: seq<EtcRow>, s: set<Pair>)
    ensures forall x | x in Drop(rows, s) :: x in rows && PairOf(x) !in s
  {
    if rows != [] {
      DropKeeps(rows[1..], s);
    }
  }

  /** The rows selected for a pair come from the table and carry that pair. */
  lemma {:induction false} OnlySelects(rows: seq<EtcRow>, p: Pair)
    ensures forall x | x in Only(rows, p) :: x in rows && PairOf(x) == p
  {
    if rows != [] {
      OnlySelects(rows[1..], p);
    }
  }

  lemma {:induction false} DropAppend(a: seq<EtcRow>, b: seq<EtcRow>, s: set<Pair>)
    ensures Drop(a + b, s) == Drop(a, s) + Drop(b, s)
  {
    if a != [] {
      DropAppend(a[1..], b, s);
      assert (a + b)[0] == a[0];
      assert (a + b)[1..] == a[1..] + b;
      var head := if PairOf(a[0]) in s then [] else [a[0]];
      calc {
        Drop(a + b, s);
        head + Drop(a[1..] + b, s);
        head + (Drop(a[1..], s) + Drop(b, s));
        (head + Drop(a[1..], s)) + Drop(b, s);
      }
    } else {
      assert a + b == b;
    }
  }

  /** Deleting twice is deleting the union. */
  lemma {:induction false} DropDrop(rows: seq<EtcRow>, s: set<Pair>, t: set<Pair>)
    ensures Drop(Drop(rows, s), t) == Drop(rows, s + t)
  {
    if rows != [] {
      DropDrop(rows[1..], s, t);
      var head := if PairOf(rows[0]) in s then [] else [rows[0]];
      DropAppend(head, Drop(rows[1..], s), t);
    }
  }

  lemma {:induction false} OnlyAppend(a: seq<EtcRow>, b: seq<EtcRow>, p: Pair)
    ensures Only(a + b, p) == Only(a, p) + Only(b, p)
  {
    if a != [] {
      OnlyAppend(a[1..], b, p);
      assert (a + b)[1..] == a[1..] + b;
    } else {
      assert a + b == b;
    }
  }

  /** Deleting other pairs leaves the rows of `p` exactly as they were. */
  lemma {:induction false} OnlyDrop(rows: seq<EtcRow>, s: set<Pair>, p: Pair)
    ensures Only(Drop(rows, s), p) == if p in s then [] else Only(rows, p)
  {
    if rows != [] {
      OnlyDrop(rows[1..], s, p);
      var head := if PairOf(rows[0]) in s then [] else [rows[0]];
      OnlyAppend(head, Drop(rows[1..], s), p);
    }
  }

  lemma {:induction false} DropAll(rows: seq<EtcRow>, s: set<Pair>)
    requires forall i | 0 <= i < |rows| :: PairOf(rows[i]) in s
    ensures Drop(rows, s) == []
  {
    if rows != [] {
      DropAll(rows[1..], s);
    }
  }

  lemma {:induction false} OnlyNone(rows: seq<EtcRow>, p: Pair)
    requires forall i | 0 <= i < |rows| :: PairOf(rows[i]) != p
    ensures Only(rows, p) == []
  {
    if rows != [] {
      OnlyNone(rows[1..], p);
    }
  }

  /** A pair the results map has a value for. */
  predicate InResults(results: EtcResults, p: Pair)
  {
    p.0 in results && p.1 in results[p.0]
  }

  /** The row a batch writes for a pair under timestamp `ts`. */
  function NewRow(p: Pair, results: EtcResults, ts: string): (r: EtcRow)
    requires InResults(results, p)
    ensures PairOf(r) == p && r.calculatedAt == ts
  {
    EtcRow(p.0, p.1, results[p.0][p.1], ts)
  }

  /**
   * The pairs `save_etc_calculations_batch` touches: a field in the results
   * and a date of the weather list for which that field has a value.
   */
  function BatchPairs(results: EtcResults, ws: seq<WeatherData>): (s: set<Pair>)
    ensures forall p :: p in s <==> InResults(results, p) && p.1 in Dates(ws)
  {
    set f, d | f in results && d in results[f] && d in Dates(ws) :: (f, d)
  }

  /** Rows appended by a batch: each is the new row of a touched pair, and every touched pair has exactly one. */
  ghost predicate FreshRows(tail: seq<EtcRow>, s: set<Pair>, results: EtcResults, ts: string)
    requires forall p | p in s :: InResults(results, p)
  {
    && (forall i | 0 <= i < |tail| :: PairOf(tail[i]) in s && tail[i] == NewRow(PairOf(tail[i]), results, ts))
    && (forall p | p in s :: |Only(tail, p)| == 1)
  }

  /**
   * The table `after` is `before` with every row of the pairs in `s` deleted
   * (the others keep their order) followed by one new row per pair of `s`,
   * all stamped `ts`.
   */
  ghost predicate Replaced(before: seq<EtcRow>, after: seq<EtcRow>, s: set<Pair>, results: EtcResults, ts: string)
  {
    var kept := Drop(before, s);
    && (forall p | p in s :: InResults(results, p))
    && |kept| <= |after|
    && after[..|kept|] == kept
    && FreshRows(after[|kept|..], s, results, ts)
  }

  lemma {:induction false} DropNothing(rows: seq<EtcRow>)
    ensures Drop(rows, {}) == rows
  {
    if rows != [] {
      DropNothing(rows[1..]);
    }
  }

  /** An empty batch changes nothing. */
  lemma ReplacedNothing(rows: seq<EtcRow>, results: EtcResults, ts: string)
    ensures Replaced(rows, rows, {}, results, ts)
  {
    DropNothing(rows);
  }

  /** Deleting one pair from the appended rows and appending its new row keeps them fresh for `s + {p}`. */
  lemma FreshRowsStep(tail: seq<EtcRow>, s: set<Pair>, results: EtcResults, ts: string, p: Pair)
    requires forall q | q in s :: InResults(results, q)
    requires InResults(results, p)
    requires FreshRows(tail, s, results, ts)
    ensures FreshRows(Drop(tail, {p}) + [NewRow(p, results, ts)], s + {p}, results, ts)
  {
    var row := NewRow(p, results, ts);
    var rest := Drop(tail, {p});
    var tail' := rest + [row];
    forall q | q in s + {p} ensures |Only(tail', q)| == 1 {
      OnlyAppend(rest, [row], q);
      OnlyDrop(tail, {p}, q);
    }
    forall i | 0 <= i < |tail'| ensures PairOf(tail'[i]) in s + {p} && tail'[i] == NewRow(PairOf(tail'[i]), results, ts) {
      if i < |rest| {
        assert tail'[i] == rest[i];
        DropKeeps(tail, {p});
        assert rest[i] in tail;
        var k :| 0 <= k < |tail| && tail[k] == rest[i];
      }
    }
  }

  /**
   * One step of a batch: deleting the rows of one more pair and appending its
   * new row extends a replacement of `s` to a replacement of `s + {p}`.
   */
  lemma ReplacedStep(before: seq<EtcRow>, cur: seq<EtcRow>, s: set<Pair>, results: EtcResults, ts: string, p: Pair)
    requires Replaced(before, cur, s, results, ts)
    requires InResults(results, p)
    ensures Replaced(before, Drop(cur, {p}) + [NewRow(p, results, ts)], s + {p}, results, ts)
  {
    var kept := Drop(before, s);
    var tail := cur[|kept|..];
    assert cur == kept + tail;
    DropAppend(kept, tail, {p});
    DropDrop(before, s, {p});
    FreshRowsStep(tail, s, results, ts, p);
    var tail' := Drop(tail, {p}) + [NewRow(p, results, ts)];
    var kept' := Drop(before, s + {p});
    var next := Drop(cur, {p}) + [NewRow(p, results, ts)];
    assert next == kept' + tail';
    assert next[..|kept'|] == kept' && next[|kept'|..] == tail';
  }

  /** After a replacement a touched pair has exactly one row, holding its result and the batch timestamp. */
  lemma ReplacedTouched(before: seq<EtcRow>, after: seq<EtcRow>, s: set<Pair>, results: EtcResults, ts: string, p: Pair)
    requires Replaced(before, after, s, results, ts)
    requires p in s
    ensures Only(after, p) == [NewRow(p, results, ts)]
  {
    var kept := Drop(before, s);
    var tail := after[|kept|..];
    assert after == kept + tail;
    OnlyAppend(kept, tail, p);
    OnlyDrop(before, s, p);
    var only := Only(tail, p);
    assert |only| == 1;
    OnlySelects(tail, p);
    assert only[0] in tail;
  }

  /** Rows of every pair outside `s` are untouched, in content and in order. */
  lemma ReplacedOthers(before: seq<EtcRow>, after: seq<EtcRow>, s: set<Pair>, results: EtcResults, ts: string, p: Pair)
    requires Replaced(before, after, s, results, ts)
    requires p !in s
    ensures Only(after, p) == Only(before, p)
  {
    var kept := Drop(before, s);
    var tail := after[|kept|..];
    assert after == kept + tail;
    OnlyAppend(kept, tail, p);
    OnlyDrop(before, s, p);
    OnlyNone(tail, p);
  }

  /** Replacing the same pairs again is the same as replacing them once, with the later timestamp. */
  lemma ReplacedTwice(a: seq<EtcRow>, b: seq<EtcRow>, c: seq<EtcRow>, s: set<Pair>, results: EtcResults, t1: string, t2: string)
    requires Replaced(a, b, s, results, t1)
    requires Replaced(b, c, s, results, t2)
    ensures Replaced(a, c, s, results, t2)
  {
    var kept := Drop(a, s);
    var tail := b[|kept|..];
    assert b == kept + tail;
    DropAppend(kept, tail, s);
    DropDrop(a, s, s);
    assert s + s == s;
    DropAll(tail, s);
    assert Drop(b, s) == kept;
  }

  /** `save_etc_calculation` only appends: each single save adds a row for its pair. */
  lemma AppendAddsRow(rows: seq<EtcRow>, row: EtcRow)
    ensures |Only(rows + [row], PairOf(row))| == |Only(rows, PairOf(row))| + 1
  {
    OnlyAppend(rows, [row], PairOf(row));
  }

  /**
   * A history filter as Python tests it (`if field_name:`): `None` and the
   * empty string both mean "no filter".
   */
  predicate Matches(row: EtcRow, fieldName: Option<string>, date: Option<string>)
  {
    && (fieldName.None? || fieldName.value == "" || row.fieldName == fieldName.value)
    && (date.None? || date.value == "" || row.date == date.value)
  }

  /** The rows the WHERE clause of `get_etc_history` selects, with their multiplicities. */
  function Matching(rows: seq<EtcRow>, fieldName: Option<string>, date: Option<string>): (r: seq<EtcRow>)
    ensures forall x :: multiset(r)[x] == if Matches(x, fieldName, date) then multiset(rows)[x] else 0
  {
    if rows == [] then []
    else
      assert rows == [rows[0]] + rows[1..];
      (if Matches(rows[0], fieldName, date) then [rows[0]] else []) + Matching(rows[1..], fieldName, date)
  }

  /** Filtering on a non-empty field name and a non-empty date selects exactly that pair's rows. */
  lemma {:induction false} MatchingPair(rows: seq<EtcRow>, p: Pair)
    requires p.0 != "" && p.1 != ""
    ensures Matching(rows, Some(p.0), Some(p.1)) == Only(rows, p)
  {
    if rows != [] {
      MatchingPair(rows[1..], p);
    }
  }

  /** Ordered by `calculated_at`, most recent first; rows of equal time in any order. */
  predicate NewestFirst(rows: seq<EtcRow>)
  {
    forall i, j | 0 <= i < j < |rows| :: !Less(rows[i].calculatedAt, rows[j].calculatedAt)
  }

  function TimeOf(x: EtcRow): string
  {
    x.calculatedAt
  }

  /** The `ORDER BY calculated_at DESC` of the history query: same rows, newest first. */
  function SortNewestFirst(rows: seq<EtcRow>): (r: seq<EtcRow>)
    ensures NewestFirst(r)
    ensures multiset(r) == multiset(rows)
  {
    SortBy(rows, TimeOf, true)
  }

  /**
   * `get_etc_history`: every stored row that passes the filters, with its
   * multiplicity, and no other row, most recent first.
   */
  function EtcHistory(rows: seq<EtcRow>, fieldName: Option<string>, date: Option<string>): (r: seq<EtcRow>)
    ensures NewestFirst(r)
    ensures forall x :: multiset(r)[x] == if Matches(x, fieldName, date) then multiset(rows)[x] else 0
  {
    SortNewestFirst(Matching(rows, fieldName, date))
  }

  /** After a batch, the history of a touched pair is its single fresh row. */
  lemma HistoryAfterBatch(before: seq<EtcRow>, after: seq<EtcRow>, s: set<Pair>, results: EtcResults, ts: string, p: Pair)
    requires Replaced(before, after, s, results, ts)
    requires p in s && p.0 != "" && p.1 != ""
    ensures EtcHistory(after, Some(p.0), Some(p.1)) == [NewRow(p, results, ts)]
  {
    MatchingPair(after, p);
    ReplacedTouched(before, after, s, results, ts, p);
    var row := NewRow(p, results, ts);
    assert [row][1..] == [];
  }
}
