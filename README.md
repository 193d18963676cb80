# Sliding-window anomaly detection pipeline: a verified model

This project models the core of a small time-series pipeline and proves properties of the model. The pipeline does three things:

1. **Preprocessing** fills the missing sensor readings of a CSV table with pandas' `ffill().bfill()`. It also splits a table chronologically into training and test rows.
2. **Detection** walks every sensor column separately, in column order, with a fresh sliding window of `WINDOW_SIZE` = 100 values. Each value is appended to the window. Once the window is over capacity, the oldest value is popped and a detection step runs:
   - It takes a one-step forecast from an ARIMA fit. If fitting raises, it uses the window's last value instead.
   - It computes the residual `actual - predicted`.
   - It flags the step when `|residual| > THRESHOLD_STD * std(window)`, with `THRESHOLD_STD` = 3.
   - It appends one row to a log that starts with a header line, and adds `(timestamp, value)` to the sensor's anomalies list when the step is flagged.
3. **Evaluation** reads the log back and groups it by sensor. For each sensor it gives the number of flagged rows and the root mean squared error of the predictions.

## Files

- `wrappers.dfy`:
  - `Option` and `Result`;
  - the file-system vocabulary (`Path`, `FileNotFound`).
- `tables.dfy`: the `Timestamp` type of the tables' datetime index.
- `numerics.dfy`: absolute value, sums of squares, and monotonicity of multiplication.
- `anomaly_detection.dfy`: the detector, which is imperative.
  - **The log** is the class `LogFile`, with a header and the data rows appended after it.
  - **The window** is a `seq<real>` variable that the loop reassigns with append and pop-front.
  - **The methods** `ProcessValue`, `DetectSensor` and `DetectAnomalies` are proved against the specification functions `Step`, `RowsUpTo`, `ColumnRows`, `AllRows` and `Flagged`.
  - **The lemmas** state the detector's properties on those functions.
- `preprocessing.dfy`:
  - the forward and backward fills as recursive functions, checked position by position against independent "nearest present value" definitions;
  - `load_and_preprocess` up to the fill;
  - `train_test_split`, including Python's `int()` truncation and `iloc` slice clamping.
- `evaluation.dfy`:
  - the group-by of the log;
  - per-sensor counts and RMSE;
  - the connection between evaluating the detector's own log and the detector's per-sensor results.

**Abstract parameters.** The ARIMA fit, `np.std` and `np.sqrt` are passed in as functions:
- `Predictor` returns `None` when fitting raised;
- `StdDev` is the window's standard deviation;
- `SquareRoot` is the square root.

The lemmas that need it assume only the following:
- the standard deviation is non-negative (`Spread`);
- the square root is non-negative and zero exactly at zero (`Root`).

**Reading and writing files.** A file system is a `map` from paths to already-parsed contents. When a path is absent, each stage returns `Err(FileNotFound(path))`. The detector also takes the set of existing directories: nothing in it creates `logs/`, so when that directory is absent, opening the log for writing (src/anomaly_detection.py:22) fails and the model returns `Err(FileNotFound("logs/anomaly_log.csv"))` with the log untouched.

**Note on the window.** The code appends the current value before it pops (src/anomaly_detection.py:31-33). So the window at a detection step is the `WINDOW_SIZE` values ending with the current value, and the fallback prediction is the current value itself. The model follows the code:
- `LoggedRow` states that the window's last element is the current value;
- `FallbackRow` states that a failed fit therefore yields residual 0 and no flag.

## Model

| member | source | states |
|---|---|---|
| AnomalyDetection.LogFile.Rewrite | src/anomaly_detection.py:22-23 | opening the log for writing leaves exactly the header line and no data rows |
| AnomalyDetection.LogFile.Append | src/anomaly_detection.py:47-48 | appending a row keeps the header and every earlier row and adds the row last |
| AnomalyDetection.ProcessValue | src/anomaly_detection.py:31-51 | one loop pass: below capacity the value only grows the window. At capacity the window becomes the old window plus the value minus its oldest element, exactly one row for that window is appended, and the point is added to the anomalies list exactly when that row is flagged |
| AnomalyDetection.DetectSensor | src/anomaly_detection.py:27-51 | the per-sensor loop appends exactly the column's specified rows to the log, after whatever was there, and returns exactly the flagged points of those rows in order |
| AnomalyDetection.DetectAnomalies | src/anomaly_detection.py:13-51 | a missing input file fails before the log is touched, and so does an absent log directory. Otherwise the log is the header followed by every column's rows, column after column, and one anomalies list per column equals the flagged points of that column alone |
| AnomalyDetection.WarmupAdvance | src/anomaly_detection.py:31-32 | during the first WINDOW_SIZE values the window is below capacity, grows by the value, and no row is added |
| AnomalyDetection.SlideAdvance | src/anomaly_detection.py:31-48 | after warm-up the window is at capacity, append-then-pop gives the next window, and exactly one row computed on it is added |
| AnomalyDetection.RowCount | src/anomaly_detection.py:30-33 | a sensor with n values logs exactly max(0, n - WINDOW_SIZE) rows |
| AnomalyDetection.RowAt | src/anomaly_detection.py:30-48 | row j is the detection step of the value at index WINDOW_SIZE + j, on the values at indices j+1 .. WINDOW_SIZE + j |
| AnomalyDetection.LoggedRow | src/anomaly_detection.py:31-48 | every logged row has the column's sensor and that index's timestamp and value. Its window has exactly WINDOW_SIZE values and ends with the current value. The prediction is the forecast or the fallback on that window, residual = actual - predicted, and the flag holds iff abs(residual) > k * std(window) |
| AnomalyDetection.WindowContents | src/anomaly_detection.py:31-33 | the window never exceeds WINDOW_SIZE values: it is the last min(i, WINDOW_SIZE) values read, in their original order, with the latest one last |
| AnomalyDetection.FallbackStep | src/anomaly_detection.py:36-44 | when the fit raises on a window ending with the current value, the prediction is that value, the residual is 0 and the step is not flagged, since std >= 0 |
| AnomalyDetection.FallbackRow | src/anomaly_detection.py:36-48 | a logged row whose window's fit raised is still logged, with predicted = actual, residual 0 and no flag |
| AnomalyDetection.RowsChronological | src/anomaly_detection.py:30-48 | with strictly increasing timestamps, a sensor's rows are in timestamp order and none of its first WINDOW_SIZE timestamps is logged |
| AnomalyDetection.StepThresholdMonotone | src/anomaly_detection.py:44 | raising the threshold multiplier never turns an unflagged step into a flagged one and changes nothing else in the row |
| AnomalyDetection.FlaggedWithin | src/anomaly_detection.py:50-51 | rows whose flags are a subset of another list's flags, position by position, give an anomalies list no longer than the other |
| AnomalyDetection.ThresholdMonotone | src/anomaly_detection.py:44-51 | under a higher multiplier a column's rows differ only by dropping flags, and its anomalies list is never longer |
| AnomalyDetection.FlaggedExactly | src/anomaly_detection.py:50-51 | a point is in the anomalies list iff some flagged row has that timestamp and actual value, and the list is never longer than the rows |
| AnomalyDetection.FlaggedConcat | src/anomaly_detection.py:50-51 | the anomalies list of concatenated rows is the concatenation of their anomalies lists |
| AnomalyDetection.AllRowsCount | src/anomaly_detection.py:25-48 | c columns of m values each log c * max(0, m - WINDOW_SIZE) rows, for every m, including tables shorter than one window |
| AnomalyDetection.FiveSensorsLog2000Rows | src/anomaly_detection.py:10-48 | five sensors of 500 values each log exactly 2000 rows |
| Preprocessing.FillForward | src/preprocessing.py:27 | the forward fill keeps the column's length and every present value |
| Preprocessing.FillBackward | src/preprocessing.py:27 | the backward fill keeps the column's length and every present value |
| Preprocessing.LastPresentMissing | src/preprocessing.py:27 | there is no earlier present value exactly when every cell is missing |
| Preprocessing.LastPresentIsNearest | src/preprocessing.py:27 | the value a forward fill carries is the value at the last present position, with only gaps after it |
| Preprocessing.FirstPresentMissing | src/preprocessing.py:27 | there is no later present value exactly when every cell is missing |
| Preprocessing.FirstPresentIsNearest | src/preprocessing.py:27 | the value a backward fill carries is the value at the first present position, with only gaps before it |
| Preprocessing.FillForwardAt | src/preprocessing.py:27 | each forward-filled cell is the nearest present value at or before it, else what was carried in |
| Preprocessing.FillBackwardAt | src/preprocessing.py:27 | each backward-filled cell is the nearest present value at or after it, else what was carried in |
| Preprocessing.FillAt | src/preprocessing.py:27 | after ffill then bfill, each cell is the nearest earlier (or same) present value if any, else the nearest later one, else missing |
| Preprocessing.FillReaches | src/preprocessing.py:27 | one present value anywhere in a column leaves no gap at any position |
| Preprocessing.FillKeepsMissing | src/preprocessing.py:27 | an all-missing column stays missing at every position |
| Preprocessing.FillComplete | src/preprocessing.py:27 | the fill keeps length and present values. A column with a present value has no gaps afterwards, and an all-missing column is unchanged |
| Preprocessing.FillsKeepNoGaps | src/preprocessing.py:27 | neither fill changes a column without gaps |
| Preprocessing.FillIdempotent | src/preprocessing.py:27 | filling twice gives the same column as filling once |
| Preprocessing.FillTableAt | src/preprocessing.py:27 | the table fill keeps the index, the column names and each column's length, and fills every column as FillAt and FillComplete state |
| Preprocessing.LoadAndPreprocess | src/preprocessing.py:20-27 | a missing path fails with FileNotFound and nothing else does. Otherwise the table read has its index and names kept, and every cell is filled from the nearest present value as FillAt states |
| Preprocessing.Trunc | src/preprocessing.py:47 | Python's int() on a real: the integer part, rounded toward zero, on each side of zero |
| Preprocessing.SplitIndex | src/preprocessing.py:47-49 | the split index int(n * ratio), as a slice bound, is floor(n * ratio) for a ratio in [0, 1] and n for a ratio of at least 1 |
| Preprocessing.TrainTestSplit | src/preprocessing.py:43-50 | train followed by test is always the input, in order. For a ratio in [0, 1] train holds exactly floor(n * ratio) rows, and for a ratio of at least 1 test is empty |
| Preprocessing.DefaultSplitOf500 | src/preprocessing.py:43-50 | 500 rows at the default ratio 0.8 split into 400 training and 100 test rows |
| Preprocessing.SplitIsChronological | src/preprocessing.py:47-49 | with rows in strictly increasing key order, every training row precedes every test row and no row is in both |
| Evaluation.RowsOfMembers | src/evaluation.py:21-26 | a row is in a sensor's group exactly when it is in the log with that sensor's name |
| Evaluation.MeanSquaredError | src/evaluation.py:21-23 | the mean squared error of a group is non-negative, and zero when every prediction in the group equals the actual value |
| Evaluation.SensorHasRows | src/evaluation.py:21-26 | every sensor appearing in the log has a non-empty group |
| Evaluation.Aggregate | src/evaluation.py:21-26 | exactly the log's sensors get an RMSE and a count, and each count is at most that sensor's number of rows |
| Evaluation.EvaluateAnomalies | src/evaluation.py:13-26 | a missing log fails with FileNotFound and nothing else does. Otherwise every sensor has one RMSE, the root of the mean squared error of its rows, and one count, the number of its flagged rows, at most its row count |
| Evaluation.CountBounds | src/evaluation.py:26 | a count never exceeds the rows counted and equals the length of those rows' anomalies list |
| Evaluation.RmseBounds | src/evaluation.py:21-23 | a sensor's RMSE is non-negative, and zero when every prediction of that sensor was exact |
| Evaluation.TotalOverSnoc | src/evaluation.py:26 | a new row raises the sum of counts over distinct names by one exactly when it is flagged and its sensor is named |
| Evaluation.CountsSumToTotal | src/evaluation.py:26 | over a list of distinct names covering every sensor of the log, the per-sensor counts sum to the total number of flagged rows |
| Evaluation.RowsOfConcat | src/evaluation.py:21-26 | grouping distributes over concatenating logs |
| Evaluation.RowsOfUniform | src/evaluation.py:21-26 | rows of one sensor form that sensor's whole group and no other sensor's |
| Evaluation.ColumnRowsOwned | src/anomaly_detection.py:25-48 | every row the detector logs for a column carries that column's sensor name |
| Evaluation.GroupOfColumn | src/evaluation.py:21-26 | in the detector's log of a table with distinct sensor names, a sensor's group is exactly its own column's rows, so sensors do not mix |
| Evaluation.EvaluateDetectionLog | src/evaluation.py:21-26 | evaluating the detector's log gives every column that logged a row an entry whose count is the length of that column's anomalies list |

## Left out

- The ARIMA(2,0,2) fit and forecast (src/anomaly_detection.py:37-39) are a foreign numerical library call. They are the parameter `fit`, which returns `None` in place of an exception.
- `np.std` is a parameter. The lemmas rely only on it being non-negative. The population formula and floating-point rounding are not modelled.
- `np.sqrt` is a parameter. The lemmas rely only on it being non-negative on non-negative inputs and zero exactly at zero.
- Evaluation.MeanSquaredError: states that the error is zero when every prediction is exact, but not the converse. The converse needs nonlinear real arithmetic that the solver does not settle.
- `StandardScaler` normalisation, its returned scaler object, and writing the preprocessed CSV (src/preprocessing.py:29-41). Library float statistics and file output.
- CSV parsing and formatting: the text of log lines, `int(anomaly)` as 0/1, and `parse_dates`. A log row is a record, and the log file is its header plus its rows.
- All plotting and console output (src/anomaly_detection.py:26, 53-64; src/evaluation.py:18, 28-61; src/preprocessing.py:38-40).
- AnomalyDetection.DetectAnomalies: the source returns `None` and uses each sensor's anomalies list only for its plot (src/anomaly_detection.py:53-62). In the model, the anomalies lists, which the source only plots, are returned as `Ok` of one list per column.
- AnomalyDetection.DetectAnomalies: the file system is fixed for the call. Once the log has been opened for writing, each later append to it (src/anomaly_detection.py:47) is assumed to succeed; the log's directory vanishing mid-run, or any other write error, is not modelled.
- IEEE floating point, NaN propagation and the exact value of `len * ratio` as a float. Values are mathematical reals. A reading is a real or missing before the fill, and the detector's input is modelled as fill-complete (no missing readings).
- The ordering of pandas' group-by output (sorted by sensor name). The per-sensor results are maps, which have no order.
- `detect_anomalies` reads a non-existent file through `read_csv`, which raises before the log is opened; the model returns `Err(FileNotFound)` at that point. Other read errors (malformed CSV) are not modelled.
- src/forecasting.py, src/eda.py, src/utils.py, scripts/generate_data.py and the run scripts are not part of this model. They are plotting, random data generation, wall-clock and file helpers, and entry points.
