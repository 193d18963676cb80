/**
 * The in-scope part of evaluate_anomalies: the missing-file check and, per sensor in the
 * anomaly log, the number of flagged rows and the root mean squared error of the predictions.
 *
 * The log arrives as the data rows that the detector wrote after its header line. Square root
 * is a parameter; the lemmas only rely on it being non-negative and zero exactly at zero.
 */
module Evaluation {
  import opened Wrappers
  import opened Files
  import opened Numerics
  import opened AnomalyDetection

  /** The square root used by np.sqrt. */
  type SquareRoot = real -> real

  /** A square root as the lemmas know it: non-negative on non-negative inputs, zero exactly at zero. */
  type Root = f: SquareRoot | forall x :: 0.0 <= x ==> f(x) >= 0.0 && (f(x) == 0.0 <==> x == 0.0)
    witness (x: real) => x

  /** The pair evaluate_anomalies returns: RMSE per sensor and anomaly count per sensor. */
  datatype Evaluation = Evaluation(rmse: map<string, real>, counts: map<string, nat>)

  /** The sensors that appear in the log: the groups of groupby("sensor"). */
  function Sensors(rows: seq<LogRow>): set<string>
  {
    set r | r in rows :: r.sensor
  }

  /** The rows of one sensor, in log order. */
  function RowsOf(rows: seq<LogRow>, sensor: string): (r: seq<LogRow>)
    ensures |r| <= |rows|
  {
    if rows == [] then []
    else
      var last := rows[|rows| - 1];
      RowsOf(rows[..|rows| - 1], sensor) + (if last.sensor == sensor then [last] else [])
  }

  /** A row is in a sensor's group exactly when it is in the log with that sensor's name. */
  lemma {:induction false} RowsOfMembers(rows: seq<LogRow>, sensor: string)
    ensures forall x :: x in RowsOf(rows, sensor) <==> x in rows && x.sensor == sensor
  {
    if rows != [] {
      var front := rows[..|rows| - 1];
      RowsOfMembers(front, sensor);
      assert rows == front + [rows[|rows| - 1]];
    }
  }

  /** The number of rows with anomaly = 1: the sum of the anomaly column. */
  function AnomalyCount(rows: seq<LogRow>): nat
  {
    if rows == [] then 0
    else AnomalyCount(rows[..|rows| - 1]) + (if rows[|rows| - 1].anomaly then 1 else 0)
  }

  /** actual - predicted for every row. */
  function Errors(rows: seq<LogRow>): seq<real>
  {
    seq(|rows|, i requires 0 <= i < |rows| => rows[i].actual - rows[i].predicted)
  }

  /** sklearn's mean_squared_error(actual, predicted) over a non-empty group of rows. */
  function MeanSquaredError(rows: seq<LogRow>): (r: real)
    requires rows != []
    ensures r >= 0.0
    ensures (forall i :: 0 <= i < |rows| ==> rows[i].predicted == rows[i].actual) ==> r == 0.0
  {
    ExactPredictionsHaveNoError(rows);
    SumOfSquares(Errors(rows)) / |rows| as real
  }

  /** When every prediction was exact, the squared errors sum to zero. */
  lemma ExactPredictionsHaveNoError(rows: seq<LogRow>)
    ensures (forall i :: 0 <= i < |rows| ==> rows[i].predicted == rows[i].actual) ==> SumOfSquares(Errors(rows)) == 0.0
  {
    if forall i :: 0 <= i < |rows| ==> rows[i].predicted == rows[i].actual {
      SumOfSquaresOfZeros(Errors(rows));
    }
  }

  /** Every sensor of the log has at least one row. */
  lemma SensorHasRows(rows: seq<LogRow>, sensor: string)
    requires sensor in Sensors(rows)
    ensures RowsOf(rows, sensor) != []
  {
    var r :| r in rows && r.sensor == sensor;
    RowsOfMembers(rows, sensor);
    assert r in RowsOf(rows, sensor);
  }

  /** The per-sensor aggregation of a log: one RMSE and one count for each sensor in it. */
  function Aggregate(rows: seq<LogRow>, sqrt: SquareRoot): (e: Evaluation)
    ensures e.rmse.Keys == Sensors(rows) && e.counts.Keys == Sensors(rows)
    ensures forall s :: s in Sensors(rows) ==> e.counts[s] <= |RowsOf(rows, s)|
  {
    var sensors := Sensors(rows);
    forall s | s in sensors
      ensures RowsOf(rows, s) != [] && AnomalyCount(RowsOf(rows, s)) <= |RowsOf(rows, s)|
    {
      SensorHasRows(rows, s);
      CountBounds(RowsOf(rows, s));
    }
    Evaluation(map s | s in sensors :: sqrt(MeanSquaredError(RowsOf(rows, s))),
               map s | s in sensors :: AnomalyCount(RowsOf(rows, s)))
  }

  /**
   * evaluate_anomalies: a missing log raises FileNotFoundError and nothing is computed;
   * otherwise the per-sensor RMSE and anomaly count of the rows read from it.
   */
  function EvaluateAnomalies(files: map<Path, seq<LogRow>>, logPath: Path, sqrt: SquareRoot)
    : (r: Result<Evaluation, IoError>)
    ensures logPath !in files <==> r == Err(FileNotFound(logPath))
    ensures logPath in files ==>
      var rows := files[logPath];
      && r.Ok?
      && r.value.rmse.Keys == Sensors(rows)
      && r.value.counts.Keys == Sensors(rows)
      && forall s :: s in Sensors(rows) ==>
           && RowsOf(rows, s) != []
           && r.value.counts[s] == |Flagged(RowsOf(rows, s))|
           && r.value.counts[s] <= |RowsOf(rows, s)|
           && r.value.rmse[s] == sqrt(MeanSquaredError(RowsOf(rows, s)))
  {
    if logPath !in files then Err(FileNotFound(logPath))
    else
      var rows := files[logPath];
      forall s | s in Sensors(rows)
        ensures RowsOf(rows, s) != [] && AnomalyCount(RowsOf(rows, s)) == |Flagged(RowsOf(rows, s))|
      {
        SensorHasRows(rows, s);
        CountBounds(RowsOf(rows, s));
      }
      Ok(Aggregate(rows, sqrt))
  }

  // ---------------------------------------------------------------------------------------------
  // Properties of the aggregation.

  /** A count never exceeds the rows counted, and equals the length of their anomalies list. */
  lemma {:induction false} CountBounds(rows: seq<LogRow>)
    ensures AnomalyCount(rows) <= |rows|
    ensures AnomalyCount(rows) == |Flagged(rows)|
  {
    if rows != [] {
      CountBounds(rows[..|rows| - 1]);
    }
  }

  /** A sensor's RMSE is non-negative, and zero when every prediction of it was exact. */
  lemma RmseBounds(rows: seq<LogRow>, sqrt: Root, sensor: string)
    requires sensor in Sensors(rows)
    ensures var e := Aggregate(rows, sqrt);
      && e.rmse[sensor] >= 0.0
      && ((forall r :: r in rows && r.sensor == sensor ==> r.predicted == r.actual) ==> e.rmse[sensor] == 0.0)
  {
    var group := RowsOf(rows, sensor);
    SensorHasRows(rows, sensor);
    var mse := MeanSquaredError(group);
    assert Aggregate(rows, sqrt).rmse[sensor] == sqrt(mse);
    assert sqrt(mse) >= 0.0 && (sqrt(mse) == 0.0 <==> mse == 0.0);
    if forall r :: r in rows && r.sensor == sensor ==> r.predicted == r.actual {
      RowsOfMembers(rows, sensor);
      forall i | 0 <= i < |group|
        ensures group[i].predicted == group[i].actual
      {
        assert group[i] in group;
      }
    }
  }

  /** Sum of the per-sensor counts over a list of sensor names. */
  function TotalOver(rows: seq<LogRow>, names: seq<string>): nat
  {
    if names == [] then 0 else TotalOver(rows, names[..|names| - 1]) + AnomalyCount(RowsOf(rows, names[|names| - 1]))
  }

  /** No name occurs twice. */
  predicate Distinct(names: seq<string>)
  {
    forall a, b :: 0 <= a < b < |names| ==> names[a] != names[b]
  }

  /** Appending a row adds it to its own sensor's group only. */
  lemma RowsOfSnoc(rows: seq<LogRow>, r: LogRow, sensor: string)
    ensures RowsOf(rows + [r], sensor) == RowsOf(rows, sensor) + (if r.sensor == sensor then [r] else [])
  {
    assert (rows + [r])[..|rows|] == rows;
  }

  /** Appending a row adds one to the count exactly when it is flagged. */
  lemma CountSnoc(rows: seq<LogRow>, r: LogRow)
    ensures AnomalyCount(rows + [r]) == AnomalyCount(rows) + (if r.anomaly then 1 else 0)
  {
    assert (rows + [r])[..|rows|] == rows;
  }

  /** A flagged row of a named sensor adds exactly one to the total over distinct names. */
  lemma {:induction false} TotalOverSnoc(rows: seq<LogRow>, r: LogRow, names: seq<string>)
    requires Distinct(names)
    ensures TotalOver(rows + [r], names)
      == TotalOver(rows, names) + (if r.anomaly && r.sensor in names then 1 else 0)
  {
    if names != [] {
      var front, name := names[..|names| - 1], names[|names| - 1];
      assert names == front + [name];
      assert Distinct(front);
      TotalOverSnoc(rows, r, front);
      RowsOfSnoc(rows, r, name);
      if r.sensor == name {
        CountSnoc(RowsOf(rows, name), r);
        assert r.sensor !in front;
      } else {
        assert RowsOf(rows + [r], name) == RowsOf(rows, name);
      }
    }
  }

  /** Over a distinct list naming every sensor of the log, the counts sum to the total flagged rows. */
  lemma {:induction false} CountsSumToTotal(rows: seq<LogRow>, names: seq<string>)
    requires Distinct(names)
    requires forall s :: s in Sensors(rows) ==> s in names
    ensures TotalOver(rows, names) == AnomalyCount(rows)
  {
    if rows == [] {
      TotalOverEmpty(names);
    } else {
      var front, last := rows[..|rows| - 1], rows[|rows| - 1];
      assert rows == front + [last];
      assert last.sensor in Sensors(rows);
      CountsSumToTotal(front, names);
      TotalOverSnoc(front, last, names);
    }
  }

  /** An empty log sums to zero over any names. */
  lemma {:induction false} TotalOverEmpty(names: seq<string>)
    ensures TotalOver([], names) == 0
  {
    if names != [] {
      TotalOverEmpty(names[..|names| - 1]);
    }
  }

  // ---------------------------------------------------------------------------------------------
  // Evaluating the detector's own log.

  /** RowsOf distributes over concatenation. */
  lemma {:induction false} RowsOfConcat(a: seq<LogRow>, b: seq<LogRow>, sensor: string)
    ensures RowsOf(a + b, sensor) == RowsOf(a, sensor) + RowsOf(b, sensor)
  {
    if b == [] {
      assert a + b == a;
    } else {
      var front, last := b[..|b| - 1], b[|b| - 1];
      assert a + b == (a + front) + [last];
      assert (a + b)[..|a + b| - 1] == a + front;
      RowsOfConcat(a, front, sensor);
    }
  }

  /** Rows all of one sensor are their own group for that sensor and no group for any other. */
  lemma {:induction false} RowsOfUniform(rows: seq<LogRow>, owner: string, sensor: string)
    requires forall j :: 0 <= j < |rows| ==> rows[j].sensor == owner
    ensures RowsOf(rows, sensor) == if sensor == owner then rows else []
  {
    if rows != [] {
      var n := |rows| - 1;
      var front, last := rows[..n], rows[n];
      assert forall j :: 0 <= j < n ==> front[j] == rows[j];
      RowsOfUniform(front, owner, sensor);
      assert RowsOf(rows, sensor) == RowsOf(front, sensor) + (if last.sensor == sensor then [last] else []);
      if sensor == owner {
        assert rows == front + [last];
      }
    }
  }

  /** Every row logged for a column carries that column's sensor name. */
  lemma ColumnRowsOwned(column: Column, fit: Predictor, k: real, std: StdDev)
    ensures var rows := ColumnRows(column, fit, k, std);
      forall j :: 0 <= j < |rows| ==> rows[j].sensor == column.sensor
  {
    var rows := ColumnRows(column, fit, k, std);
    RowCount(column.sensor, column.timestamps, column.values, |column.values|, fit, k, std);
    forall j | 0 <= j < |rows|
      ensures rows[j].sensor == column.sensor
    {
      LoggedRow(column, fit, k, std, j);
    }
  }

  /** No two columns share a sensor name. */
  predicate DistinctSensors(columns: seq<Column>)
  {
    forall a, b :: 0 <= a < b < |columns| ==> columns[a].sensor != columns[b].sensor
  }

  /** The blocks of the first n columns laid end to end, column after column. */
  function Chain(columns: seq<Column>, n: nat, block: Column -> seq<LogRow>): seq<LogRow>
    requires n <= |columns|
  {
    if n == 0 then [] else Chain(columns, n - 1, block) + block(columns[n - 1])
  }

  /** Every row of a column's block carries that column's sensor name. */
  predicate Owned(columns: seq<Column>, block: Column -> seq<LogRow>)
  {
    forall c, j :: 0 <= c < |columns| && 0 <= j < |block(columns[c])| ==> block(columns[c])[j].sensor == columns[c].sensor
  }

  /** The group of `sensor` in a chain, one more column at a time. */
  lemma ChainAdvance(columns: seq<Column>, n: nat, sensor: string, block: Column -> seq<LogRow>)
    requires 0 < n <= |columns| && Owned(columns, block)
    ensures RowsOf(Chain(columns, n, block), sensor)
      == RowsOf(Chain(columns, n - 1, block), sensor)
         + (if sensor == columns[n - 1].sensor then block(columns[n - 1]) else [])
  {
    var last := columns[n - 1];
    RowsOfConcat(Chain(columns, n - 1, block), block(last), sensor);
    RowsOfUniform(block(last), last.sensor, sensor);
  }

  /** A sensor named by none of the first n columns has no rows in their chain. */
  lemma {:induction false} ChainGroupOfNone(columns: seq<Column>, n: nat, sensor: string, block: Column -> seq<LogRow>)
    requires n <= |columns| && Owned(columns, block)
    requires forall c :: 0 <= c < n ==> columns[c].sensor != sensor
    ensures RowsOf(Chain(columns, n, block), sensor) == []
  {
    if n > 0 {
      ChainAdvance(columns, n, sensor, block);
      ChainGroupOfNone(columns, n - 1, sensor, block);
    }
  }

  /** With distinct sensor names, a sensor's group in a chain is its own column's block. */
  lemma {:induction false} ChainGroupOfColumn(columns: seq<Column>, n: nat, c: nat, block: Column -> seq<LogRow>)
    requires c < n <= |columns| && Owned(columns, block) && DistinctSensors(columns)
    ensures RowsOf(Chain(columns, n, block), columns[c].sensor) == block(columns[c])
  {
    var s := columns[c].sensor;
    ChainAdvance(columns, n, s, block);
    if c < n - 1 {
      assert s != columns[n - 1].sensor;
      ChainGroupOfColumn(columns, n - 1, c, block);
    } else {
      ChainGroupOfNone(columns, n - 1, s, block);
    }
  }

  /** The detector's log for the first n columns is the chain of their logged rows. */
  lemma {:induction false} AllRowsIsChain(columns: seq<Column>, n: nat, fit: Predictor, k: real, std: StdDev)
    requires n <= |columns|
    ensures AllRowsUpTo(columns, n, fit, k, std) == Chain(columns, n, (col: Column) => ColumnRows(col, fit, k, std))
  {
    if n > 0 {
      AllRowsIsChain(columns, n - 1, fit, k, std);
    }
  }

  /**
   * With distinct sensor names, a sensor's group in the detector's log is exactly the rows of
   * its own column: sensors do not mix.
   */
  lemma GroupOfColumn(columns: seq<Column>, c: nat, fit: Predictor, k: real, std: StdDev)
    requires c < |columns| && DistinctSensors(columns)
    ensures RowsOf(AllRows(columns, fit, k, std), columns[c].sensor) == ColumnRows(columns[c], fit, k, std)
  {
    var block := (col: Column) => ColumnRows(col, fit, k, std);
    forall c', j | 0 <= c' < |columns| && 0 <= j < |block(columns[c'])|
      ensures block(columns[c'])[j].sensor == columns[c'].sensor
    {
      ColumnRowsOwned(columns[c'], fit, k, std);
    }
    AllRowsIsChain(columns, |columns|, fit, k, std);
    ChainGroupOfColumn(columns, |columns|, c, block);
  }

  /**
   * Evaluating the log the detector wrote for a table with distinct sensor names: every column
   * that logged a row gets one entry, and its count is the length of that sensor's anomalies
   * list.
   */
  lemma EvaluateDetectionLog(columns: seq<Column>, fit: Predictor, std: StdDev, sqrt: SquareRoot, c: nat)
    requires c < |columns| && DistinctSensors(columns) && |columns[c].values| > WindowSize
    ensures var rows := AllRows(columns, fit, ThresholdStd, std);
      var e := Aggregate(rows, sqrt);
      && columns[c].sensor in e.counts
      && e.counts[columns[c].sensor] == |Flagged(ColumnRows(columns[c], fit, ThresholdStd, std))|
  {
    var rows := AllRows(columns, fit, ThresholdStd, std);
    var col := columns[c];
    var own := ColumnRows(col, fit, ThresholdStd, std);
    GroupOfColumn(columns, c, fit, ThresholdStd, std);
    LoggedRow(col, fit, ThresholdStd, std, 0);
    assert own[0] in RowsOf(rows, col.sensor);
    RowsOfMembers(rows, col.sensor);
    assert col.sensor in Sensors(rows);
    CountBounds(own);
  }
}
