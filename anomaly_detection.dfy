/**
 * The sliding-window forecast-residual anomaly detector (detect_anomalies).
 *
 * Each sensor column is walked in timestamp order with a fresh window. Every value is appended
 * to the window; once the window is longer than WindowSize its oldest value is popped and a
 * detection step runs on the WindowSize values that end with the current one: a one-step
 * forecast (or, if fitting raised, the window's last value), the residual, the threshold test,
 * one appended log row, and for a flagged step one (timestamp, value) pair in the sensor's list.
 */
module AnomalyDetection {
  import opened Wrappers
  import opened Files
  import opened Tables
  import opened Numerics

  /** WINDOW_SIZE: number of values a fit sees. */
  const WindowSize: nat := 100
  /** THRESHOLD_STD: residual threshold in units of the window's standard deviation. */
  const ThresholdStd: real := 3.0
  /** Directory of the log; it must exist for the log to be opened, and nothing here creates it. */
  const LogDir: Path := "logs"
  /** LOG_FILE: the detection log. */
  const LogPath: Path := LogDir + "/anomaly_log.csv"
  /** First line written to the log when detection starts. */
  const LogHeader: string := "timestamp,sensor,actual,predicted,residual,anomaly"

  /**
   * Fitting an ARIMA(2,0,2) model on a window and forecasting one step: Some(prediction), or
   * None when fitting or forecasting raised.
   */
  type Predictor = seq<real> -> Option<real>

  /** numpy's standard deviation of a window, left abstract. */
  type StdDev = seq<real> -> real

  /** A standard deviation as the lemmas know it: never negative. */
  type Spread = f: StdDev | forall w :: f(w) >= 0.0 witness (w: seq<real>) => 0.0

  /** A (timestamp, value) pair: the shape of a detected anomaly. */
  datatype Point = Point(timestamp: Timestamp, value: real)

  /**
   * One sensor column of the preprocessed table, in timestamp order: its name, its index and its
   * values. A column has exactly one timestamp per value.
   */
  datatype Series = Series(sensor: string, timestamps: seq<Timestamp>, values: seq<real>)
  type Column = s: Series | |s.timestamps| == |s.values| witness Series("", [], [])

  /** The preprocessed table as the detector reads it: its sensor columns in column order. */
  datatype Frame = Frame(columns: seq<Column>)

  /** One data row of the anomaly log. */
  datatype LogRow = LogRow(timestamp: Timestamp, sensor: string, actual: real,
                           predicted: real, residual: real, anomaly: bool)

  /**
   * The anomaly log file: a header line followed by data rows. It is only ever truncated to a
   * new header or appended to.
   */
  class LogFile {
    var header: string
    var rows: seq<LogRow>

    /** Opening the file for writing and writing a header line. */
    method Rewrite(header: string)
      modifies this
      ensures this.header == header && rows == []
    {
      this.header := header;
      rows := [];
    }

    /** Opening the file for appending and writing one data row. */
    method Append(row: LogRow)
      modifies this
      ensures header == old(header) && rows == old(rows) + [row]
    {
      rows := rows + [row];
    }
  }

  /** The prediction used for a window: the forecast, or the window's last value when fitting raised. */
  function Predict(window: seq<real>, fit: Predictor): real
    requires |window| > 0
  {
    match fit(window)
    case Some(p) => p
    case None => window[|window| - 1]
  }

  /** The threshold rule: |residual| > k * std(window). */
  predicate Exceeds(residual: real, window: seq<real>, k: real, std: StdDev)
  {
    Abs(residual) > k * std(window)
  }

  /** The detection step for the value observed at `timestamp`, on `window`, as the log row it produces. */
  function Step(sensor: string, timestamp: Timestamp, value: real, window: seq<real>,
                fit: Predictor, k: real, std: StdDev): LogRow
    requires |window| > 0
  {
    var predicted := Predict(window, fit);
    var residual := value - predicted;
    LogRow(timestamp, sensor, value, predicted, residual, Exceeds(residual, window, k, std))
  }

  /**
   * The rows logged for the first n values of one sensor with threshold multiplier k: a row for
   * every value after the first WindowSize, each computed on the WindowSize values ending with it.
   */
  function RowsUpTo(sensor: string, ts: seq<Timestamp>, vs: seq<real>, n: nat,
                    fit: Predictor, k: real, std: StdDev): seq<LogRow>
    requires |ts| == |vs| && n <= |vs|
  {
    if n <= WindowSize then []
    else
      RowsUpTo(sensor, ts, vs, n - 1, fit, k, std)
        + [Step(sensor, ts[n - 1], vs[n - 1], vs[n - WindowSize..n], fit, k, std)]
  }

  /** The rows logged for one column. */
  function ColumnRows(column: Column, fit: Predictor, k: real, std: StdDev): seq<LogRow>
  {
    RowsUpTo(column.sensor, column.timestamps, column.values, |column.values|, fit, k, std)
  }

  /** The anomalies list built from logged rows: (timestamp, actual) of every flagged row, in order. */
  function Flagged(rows: seq<LogRow>): seq<Point>
  {
    if rows == [] then []
    else
      var last := rows[|rows| - 1];
      Flagged(rows[..|rows| - 1]) + (if last.anomaly then [Point(last.timestamp, last.actual)] else [])
  }

  /** The data rows logged for the first c columns, sensor after sensor in column order. */
  function AllRowsUpTo(columns: seq<Column>, c: nat, fit: Predictor, k: real, std: StdDev): seq<LogRow>
    requires c <= |columns|
  {
    if c == 0 then [] else AllRowsUpTo(columns, c - 1, fit, k, std) + ColumnRows(columns[c - 1], fit, k, std)
  }

  /** The data rows logged for a whole table. */
  function AllRows(columns: seq<Column>, fit: Predictor, k: real, std: StdDev): seq<LogRow>
  {
    AllRowsUpTo(columns, |columns|, fit, k, std)
  }

  // ---------------------------------------------------------------------------------------------
  // Small facts about the sequence helpers, used by the loop proofs.

  lemma FlaggedSnoc(rows: seq<LogRow>, r: LogRow)
    ensures Flagged(rows + [r]) == Flagged(rows) + (if r.anomaly then [Point(r.timestamp, r.actual)] else [])
  {
    assert (rows + [r])[..|rows|] == rows;
  }

  /** The window after i values: the values seen so far, or the last WindowSize of them. */
  function WindowAfter(vs: seq<real>, i: nat): seq<real>
    requires i <= |vs|
  {
    if i <= WindowSize then vs[..i] else vs[i - WindowSize..i]
  }

  /** During warm-up a value only grows the window and logs nothing. */
  lemma WarmupAdvance(sensor: string, ts: seq<Timestamp>, vs: seq<real>, i: nat,
                      fit: Predictor, k: real, std: StdDev)
    requires |ts| == |vs| && i < |vs| && i < WindowSize
    ensures |WindowAfter(vs, i)| < WindowSize
    ensures WindowAfter(vs, i) + [vs[i]] == WindowAfter(vs, i + 1)
    ensures RowsUpTo(sensor, ts, vs, i + 1, fit, k, std) == RowsUpTo(sensor, ts, vs, i, fit, k, std)
  {
    assert vs[..i + 1] == vs[..i] + [vs[i]];
  }

  /** After warm-up a value slides the window and logs the step computed on the new window. */
  lemma SlideAdvance(sensor: string, ts: seq<Timestamp>, vs: seq<real>, i: nat,
                     fit: Predictor, k: real, std: StdDev)
    requires |ts| == |vs| && WindowSize <= i < |vs|
    ensures |WindowAfter(vs, i)| == WindowSize
    ensures (WindowAfter(vs, i) + [vs[i]])[1..] == WindowAfter(vs, i + 1)
    ensures RowsUpTo(sensor, ts, vs, i + 1, fit, k, std)
      == RowsUpTo(sensor, ts, vs, i, fit, k, std) + [Step(sensor, ts[i], vs[i], WindowAfter(vs, i + 1), fit, k, std)]
  {
    if i == WindowSize {
      assert vs[..i] == vs[i - WindowSize..i];
    }
    assert (vs[i - WindowSize..i] + [vs[i]])[1..] == vs[i + 1 - WindowSize..i + 1];
  }

  // ---------------------------------------------------------------------------------------------
  // The detector itself.

  /**
   * One pass of the per-sensor loop body for the value observed at `timestamp`: append it to the
   * window and, once the window is over capacity, pop the oldest value, log the detection step's
   * row and, when it is flagged, add (timestamp, value) to the anomalies list.
   */
  method ProcessValue(sensor: string, timestamp: Timestamp, value: real, window: seq<real>,
                      anomalies: seq<Point>, fit: Predictor, std: StdDev, log: LogFile)
    returns (window': seq<real>, anomalies': seq<Point>)
    requires |window| <= WindowSize
    modifies log
    ensures log.header == old(log.header)
    ensures |window| < WindowSize ==>
      window' == window + [value] && log.rows == old(log.rows) && anomalies' == anomalies
    ensures |window| == WindowSize ==> window' == (window + [value])[1..]
    ensures |window| == WindowSize ==>
      var row := Step(sensor, timestamp, value, window', fit, ThresholdStd, std);
      && log.rows == old(log.rows) + [row]
      && anomalies' == anomalies + (if row.anomaly then [Point(timestamp, value)] else [])
  {
    window' := window + [value];
    anomalies' := anomalies;
    if |window'| > WindowSize {
      window' := window'[1..];
      var row := Step(sensor, timestamp, value, window', fit, ThresholdStd, std);
      log.Append(row);
      if row.anomaly {
        anomalies' := anomalies' + [Point(timestamp, value)];
      }
    }
  }

  /**
   * The per-sensor loop of detect_anomalies: appends one data row per detection step to the log
   * and returns the sensor's anomalies list.
   */
  method DetectSensor(column: Column, fit: Predictor, std: StdDev, log: LogFile)
    returns (anomalies: seq<Point>)
    modifies log
    ensures log.header == old(log.header)
    ensures log.rows == old(log.rows) + ColumnRows(column, fit, ThresholdStd, std)
    ensures anomalies == Flagged(ColumnRows(column, fit, ThresholdStd, std))
  {
    var sensor, ts, vs := column.sensor, column.timestamps, column.values;
    anomalies := [];
    var window: seq<real> := [];
    ghost var rows: seq<LogRow> := [];
    ghost var initial := log.rows;
    var i := 0;
    while i < |vs|
      invariant 0 <= i <= |vs|
      invariant window == WindowAfter(vs, i)
      invariant rows == RowsUpTo(sensor, ts, vs, i, fit, ThresholdStd, std)
      invariant log.header == old(log.header)
      invariant log.rows == initial + rows
      invariant anomalies == Flagged(rows)
    {
      if i < WindowSize {
        WarmupAdvance(sensor, ts, vs, i, fit, ThresholdStd, std);
      } else {
        SlideAdvance(sensor, ts, vs, i, fit, ThresholdStd, std);
      }
      window, anomalies := ProcessValue(sensor, ts[i], vs[i], window, anomalies, fit, std, log);
      if i >= WindowSize {
        ghost var row := Step(sensor, ts[i], vs[i], window, fit, ThresholdStd, std);
        FlaggedSnoc(rows, row);
        rows := rows + [row];
      }
      i := i + 1;
    }
  }

  /**
   * detect_anomalies: reads the table at csvPath (an absent file raises before the log is
   * touched), truncates the log to its header (which raises when the log's directory is absent,
   * since nothing creates it), then runs the per-sensor loop for every column in column order.
   * Returns every sensor's anomalies list, in column order. `dirs` holds the directories that
   * exist; the file system does not change during the call, so once the log has been opened for
   * writing, every later append to it succeeds.
   */
  method DetectAnomalies(files: map<Path, Frame>, dirs: set<Path>, csvPath: Path, fit: Predictor, std: StdDev,
                         log: LogFile)
    returns (result: Result<seq<seq<Point>>, IoError>)
    modifies log
    ensures csvPath !in files ==>
      result == Err(FileNotFound(csvPath)) && log.header == old(log.header) && log.rows == old(log.rows)
    ensures csvPath in files && LogDir !in dirs ==>
      result == Err(FileNotFound(LogPath)) && log.header == old(log.header) && log.rows == old(log.rows)
    ensures csvPath in files && LogDir in dirs ==>
      var columns := files[csvPath].columns;
      && result.Ok?
      && |result.value| == |columns|
      && (forall c :: 0 <= c < |columns| ==> result.value[c] == Flagged(ColumnRows(columns[c], fit, ThresholdStd, std)))
      && log.header == LogHeader
      && log.rows == AllRows(columns, fit, ThresholdStd, std)
  {
    if csvPath !in files {
      return Err(FileNotFound(csvPath));
    }
    if LogDir !in dirs {
      return Err(FileNotFound(LogPath));
    }
    var columns := files[csvPath].columns;
    log.Rewrite(LogHeader);
    var perSensor: seq<seq<Point>> := [];
    var c := 0;
    while c < |columns|
      invariant 0 <= c <= |columns|
      invariant |perSensor| == c
      invariant forall j :: 0 <= j < c ==> perSensor[j] == Flagged(ColumnRows(columns[j], fit, ThresholdStd, std))
      invariant log.header == LogHeader
      invariant log.rows == AllRowsUpTo(columns, c, fit, ThresholdStd, std)
    {
      var anomalies := DetectSensor(columns[c], fit, std, log);
      perSensor := perSensor + [anomalies];
      c := c + 1;
    }
    return Ok(perSensor);
  }

  // ---------------------------------------------------------------------------------------------
  // What the detector promises, stated on its specification functions.

  /** A sensor with n values logs max(0, n - WindowSize) rows. */
  lemma {:induction false} RowCount(sensor: string, ts: seq<Timestamp>, vs: seq<real>, n: nat,
                                    fit: Predictor, k: real, std: StdDev)
    requires |ts| == |vs| && n <= |vs|
    ensures |RowsUpTo(sensor, ts, vs, n, fit, k, std)| == if n <= WindowSize then 0 else n - WindowSize
  {
    if n > WindowSize {
      RowCount(sensor, ts, vs, n - 1, fit, k, std);
    }
  }

  /**
   * Row j is the detection step of the value at index WindowSize + j, computed on the WindowSize
   * values at indices j + 1 .. WindowSize + j.
   */
  lemma {:induction false} RowAt(sensor: string, ts: seq<Timestamp>, vs: seq<real>, n: nat,
                                 fit: Predictor, k: real, std: StdDev, j: nat)
    requires |ts| == |vs| && n <= |vs| && WindowSize + j < n
    ensures j < |RowsUpTo(sensor, ts, vs, n, fit, k, std)|
    ensures RowsUpTo(sensor, ts, vs, n, fit, k, std)[j]
      == Step(sensor, ts[WindowSize + j], vs[WindowSize + j], vs[j + 1..WindowSize + j + 1], fit, k, std)
  {
    RowCount(sensor, ts, vs, n - 1, fit, k, std);
    if WindowSize + j < n - 1 {
      RowAt(sensor, ts, vs, n - 1, fit, k, std, j);
    }
  }

  /**
   * Every logged row of a column: its sensor, the timestamp and value at index WindowSize + j,
   * a window of exactly WindowSize values ending with that value, the forecast (or fallback)
   * on that window, residual = actual - predicted, and the threshold rule on that window.
   */
  lemma LoggedRow(column: Column, fit: Predictor, k: real, std: StdDev, j: nat)
    requires WindowSize + j < |column.values|
    ensures var rows := ColumnRows(column, fit, k, std);
      var i := WindowSize + j;
      var window := column.values[j + 1..i + 1];
      && |rows| == |column.values| - WindowSize
      && |window| == WindowSize
      && window[WindowSize - 1] == column.values[i]
      && rows[j].sensor == column.sensor
      && rows[j].timestamp == column.timestamps[i]
      && rows[j].actual == column.values[i]
      && rows[j].predicted == Predict(window, fit)
      && rows[j].residual == rows[j].actual - rows[j].predicted
      && (rows[j].anomaly <==> Abs(rows[j].residual) > k * std(window))
  {
    var ts, vs := column.timestamps, column.values;
    RowCount(column.sensor, ts, vs, |vs|, fit, k, std);
    RowAt(column.sensor, ts, vs, |vs|, fit, k, std, j);
  }

  /**
   * The window after i values never holds more than WindowSize values: it is the last
   * min(i, WindowSize) values read, in their original order, the latest one last.
   */
  lemma WindowContents(vs: seq<real>, i: nat)
    requires i <= |vs|
    ensures |WindowAfter(vs, i)| == if i <= WindowSize then i else WindowSize
    ensures forall t :: 0 <= t < |WindowAfter(vs, i)| ==> WindowAfter(vs, i)[t] == vs[i - |WindowAfter(vs, i)| + t]
    ensures 0 < i ==> WindowAfter(vs, i)[|WindowAfter(vs, i)| - 1] == vs[i - 1]
  {
  }

  /** When the fit raises, the prediction is the current value: residual 0 and never flagged. */
  lemma FallbackStep(sensor: string, timestamp: Timestamp, value: real, window: seq<real>,
                     fit: Predictor, k: real, std: Spread)
    requires |window| > 0 && window[|window| - 1] == value
    requires fit(window) == None && k >= 0.0
    ensures var row := Step(sensor, timestamp, value, window, fit, k, std);
      row.predicted == value && row.residual == 0.0 && !row.anomaly
  {
    MulNonNegative(k, std(window));
  }

  /** The same, for a logged row of a column whose window's fit raised. */
  lemma FallbackRow(column: Column, fit: Predictor, k: real, std: Spread, j: nat)
    requires WindowSize + j < |column.values| && k >= 0.0
    requires fit(column.values[j + 1..WindowSize + j + 1]) == None
    ensures var rows := ColumnRows(column, fit, k, std);
      j < |rows| && rows[j].predicted == rows[j].actual && rows[j].residual == 0.0 && !rows[j].anomaly
  {
    var i := WindowSize + j;
    LoggedRow(column, fit, k, std, j);
    FallbackStep(column.sensor, column.timestamps[i], column.values[i], column.values[j + 1..i + 1], fit, k, std);
  }

  /** Timestamps strictly increase along the column. */
  predicate Chronological(ts: seq<Timestamp>)
  {
    forall a, b :: 0 <= a < b < |ts| ==> ts[a] < ts[b]
  }

  /**
   * With strictly increasing timestamps, the rows of a column are in timestamp order and none of
   * the first WindowSize timestamps is ever logged.
   */
  lemma RowsChronological(column: Column, fit: Predictor, k: real, std: StdDev)
    requires Chronological(column.timestamps)
    ensures var rows := ColumnRows(column, fit, k, std);
      forall a, b :: 0 <= a < b < |rows| ==> rows[a].timestamp < rows[b].timestamp
    ensures forall r, i ::
              r in ColumnRows(column, fit, k, std) && 0 <= i < WindowSize && i < |column.timestamps|
              ==> r.timestamp != column.timestamps[i]
  {
    var rows := ColumnRows(column, fit, k, std);
    RowCount(column.sensor, column.timestamps, column.values, |column.values|, fit, k, std);
    forall j | 0 <= j < |rows|
      ensures rows[j].timestamp == column.timestamps[WindowSize + j]
    {
      LoggedRow(column, fit, k, std, j);
    }
  }

  /** Raising the threshold multiplier never turns an unflagged step into a flagged one. */
  lemma StepThresholdMonotone(sensor: string, timestamp: Timestamp, value: real, window: seq<real>,
                              fit: Predictor, k1: real, k2: real, std: Spread)
    requires |window| > 0 && k1 <= k2
    ensures var r1 := Step(sensor, timestamp, value, window, fit, k1, std);
      var r2 := Step(sensor, timestamp, value, window, fit, k2, std);
      && (r2.anomaly ==> r1.anomaly)
      && r1 == r2.(anomaly := r1.anomaly)
  {
    MulMonotone(k1, k2, std(window));
  }

  /** Row lists of equal length where every row flagged in `strict` is flagged in `lax`. */
  predicate FlagsWithin(strict: seq<LogRow>, lax: seq<LogRow>)
  {
    |strict| == |lax| && forall j :: 0 <= j < |strict| ==> strict[j].anomaly ==> lax[j].anomaly
  }

  /** Fewer flags give a shorter anomalies list. */
  lemma {:induction false} FlaggedWithin(strict: seq<LogRow>, lax: seq<LogRow>)
    requires FlagsWithin(strict, lax)
    ensures |Flagged(strict)| <= |Flagged(lax)|
  {
    if strict != [] {
      var n := |strict| - 1;
      assert FlagsWithin(strict[..n], lax[..n]);
      FlaggedWithin(strict[..n], lax[..n]);
    }
  }

  /**
   * A column's rows under a higher multiplier differ only in their flags, and only by dropping
   * some; so the column never has more anomalies under a higher multiplier.
   */
  lemma ThresholdMonotone(column: Column, fit: Predictor, k1: real, k2: real, std: Spread)
    requires k1 <= k2
    ensures var lax, strict := ColumnRows(column, fit, k1, std), ColumnRows(column, fit, k2, std);
      && FlagsWithin(strict, lax)
      && (forall j :: 0 <= j < |lax| ==> lax[j] == strict[j].(anomaly := lax[j].anomaly))
      && |Flagged(strict)| <= |Flagged(lax)|
  {
    var ts, vs := column.timestamps, column.values;
    var lax, strict := ColumnRows(column, fit, k1, std), ColumnRows(column, fit, k2, std);
    RowCount(column.sensor, ts, vs, |vs|, fit, k1, std);
    RowCount(column.sensor, ts, vs, |vs|, fit, k2, std);
    forall j | 0 <= j < |lax|
      ensures (strict[j].anomaly ==> lax[j].anomaly) && lax[j] == strict[j].(anomaly := lax[j].anomaly)
    {
      var i := WindowSize + j;
      RowAt(column.sensor, ts, vs, |vs|, fit, k1, std, j);
      RowAt(column.sensor, ts, vs, |vs|, fit, k2, std, j);
      StepThresholdMonotone(column.sensor, ts[i], vs[i], vs[j + 1..i + 1], fit, k1, k2, std);
    }
    FlaggedWithin(strict, lax);
  }

  /**
   * The anomalies list holds, in order, (timestamp, actual) of exactly the flagged rows: a point
   * is in it iff some flagged row produced it, and it is never longer than the rows.
   */
  lemma {:induction false} FlaggedExactly(rows: seq<LogRow>)
    ensures |Flagged(rows)| <= |rows|
    ensures forall p :: p in Flagged(rows) <==> exists r :: r in rows && r.anomaly && p == Point(r.timestamp, r.actual)
  {
    if rows != [] {
      var front, last := rows[..|rows| - 1], rows[|rows| - 1];
      assert rows == front + [last];
      FlaggedExactly(front);
    }
  }

  /** Flagged distributes over concatenation. */
  lemma {:induction false} FlaggedConcat(a: seq<LogRow>, b: seq<LogRow>)
    ensures Flagged(a + b) == Flagged(a) + Flagged(b)
  {
    if b == [] {
      assert a + b == a;
    } else {
      var front, last := b[..|b| - 1], b[|b| - 1];
      assert a + b == (a + front) + [last];
      assert b == front + [last];
      FlaggedConcat(a, front);
      FlaggedSnoc(a + front, last);
      FlaggedSnoc(front, last);
    }
  }

  /** Number of rows the detector logs for one column of m values. */
  function RowsPerColumn(m: nat): nat
  {
    if m <= WindowSize then 0 else m - WindowSize
  }

  /**
   * The log for a table whose columns all hold m values has RowsPerColumn(m) rows per column,
   * for every m, including tables shorter than one window.
   */
  lemma {:induction false} AllRowsCount(columns: seq<Column>, c: nat, fit: Predictor, k: real, std: StdDev, m: nat)
    requires c <= |columns|
    requires forall j :: 0 <= j < c ==> |columns[j].values| == m
    ensures |AllRowsUpTo(columns, c, fit, k, std)| == c * RowsPerColumn(m)
  {
    if c > 0 {
      var before := AllRowsUpTo(columns, c - 1, fit, k, std);
      var col := columns[c - 1];
      var added := ColumnRows(col, fit, k, std);
      assert AllRowsUpTo(columns, c, fit, k, std) == before + added;
      AllRowsCount(columns, c - 1, fit, k, std, m);
      RowCount(col.sensor, col.timestamps, col.values, |col.values|, fit, k, std);
      assert |added| == RowsPerColumn(m);
      assert (c - 1) * RowsPerColumn(m) + RowsPerColumn(m) == c * RowsPerColumn(m);
    }
  }

  /** Five sensors of 500 values each log 2000 rows. */
  lemma FiveSensorsLog2000Rows(columns: seq<Column>, fit: Predictor, std: StdDev)
    requires |columns| == 5
    requires forall j :: 0 <= j < 5 ==> |columns[j].values| == 500
    ensures |AllRows(columns, fit, ThresholdStd, std)| == 2000
  {
    AllRowsCount(columns, 5, fit, ThresholdStd, std, 500);
  }
}
