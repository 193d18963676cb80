/**
 * The in-scope part of the preprocessing stage: the missing-file check and the missing-value
 * fill of load_and_preprocess, and the chronological train/test split.
 *
 * A cell is None where the CSV has no value. The fill is pandas' `ffill().bfill()` on every
 * column: a gap takes the nearest earlier present value, and gaps before the first present
 * value take the nearest later one.
 */
module Preprocessing {
  import opened Wrappers
  import opened Files
  import opened Tables
  import opened Numerics

  /** One cell of a sensor column: Some(reading), or None for a missing value. */
  type Cell = Option<real>

  /** A named column of cells. */
  datatype Column = Column(name: string, cells: seq<Cell>)

  /** A table read from CSV: its datetime index and its columns, in file order. */
  datatype Table = Table(index: seq<Timestamp>, columns: seq<Column>)

  // ---------------------------------------------------------------------------------------------
  // The fills.

  /** Forward fill from the front, `carry` being the last present value seen so far. */
  function FillForward(cells: seq<Cell>, carry: Cell): (r: seq<Cell>)
    ensures |r| == |cells|
    ensures forall i :: 0 <= i < |cells| && cells[i].Some? ==> r[i] == cells[i]
  {
    if cells == [] then []
    else
      var c := if cells[0].Some? then cells[0] else carry;
      [c] + FillForward(cells[1..], c)
  }

  /** Backward fill from the back, `carry` being the first present value seen after the cells. */
  function FillBackward(cells: seq<Cell>, carry: Cell): (r: seq<Cell>)
    ensures |r| == |cells|
    ensures forall i :: 0 <= i < |cells| && cells[i].Some? ==> r[i] == cells[i]
  {
    if cells == [] then []
    else
      var n := |cells| - 1;
      var c := if cells[n].Some? then cells[n] else carry;
      FillBackward(cells[..n], c) + [c]
  }

  /** pandas' ffill on one column: leading gaps stay missing. */
  function ForwardFill(cells: seq<Cell>): seq<Cell>
  {
    FillForward(cells, None)
  }

  /** pandas' bfill on one column: trailing gaps stay missing. */
  function BackwardFill(cells: seq<Cell>): seq<Cell>
  {
    FillBackward(cells, None)
  }

  /** `ffill().bfill()` on one column. */
  function Fill(cells: seq<Cell>): seq<Cell>
  {
    BackwardFill(ForwardFill(cells))
  }

  // ---------------------------------------------------------------------------------------------
  // Reference definitions: the nearest present value before and after a position.

  /** The last present value of `cells`, or None when all are missing. */
  function LastPresent(cells: seq<Cell>): Cell
  {
    if cells == [] then None
    else if cells[|cells| - 1].Some? then cells[|cells| - 1]
    else LastPresent(cells[..|cells| - 1])
  }

  /** The first present value of `cells`, or None when all are missing. */
  function FirstPresent(cells: seq<Cell>): Cell
  {
    if cells == [] then None
    else if cells[0].Some? then cells[0]
    else FirstPresent(cells[1..])
  }

  /**
   * The value a gap at position i should end up with: the nearest present value at or before i,
   * otherwise the nearest one after it, otherwise missing.
   */
  function NearestPresent(cells: seq<Cell>, i: nat): Cell
    requires i < |cells|
  {
    if LastPresent(cells[..i + 1]).Some? then LastPresent(cells[..i + 1]) else FirstPresent(cells[i..])
  }

  /** No cell is present. */
  predicate AllMissing(cells: seq<Cell>)
  {
    forall i :: 0 <= i < |cells| ==> cells[i].None?
  }

  /** Every cell is present. */
  predicate NoGaps(cells: seq<Cell>)
  {
    forall i :: 0 <= i < |cells| ==> cells[i].Some?
  }

  /** LastPresent is None exactly when every cell is missing. */
  lemma {:induction false} LastPresentMissing(cells: seq<Cell>)
    ensures LastPresent(cells).None? <==> AllMissing(cells)
  {
    if cells != [] {
      var n := |cells| - 1;
      if cells[n].None? {
        var front := cells[..n];
        LastPresentMissing(front);
        assert forall i :: 0 <= i < n ==> cells[i] == front[i];
      }
    }
  }

  /** LastPresent, when some value is present, is the value at the last present position. */
  lemma {:induction false} LastPresentIsNearest(cells: seq<Cell>)
    requires !AllMissing(cells)
    ensures exists j ::
              && 0 <= j < |cells| && cells[j] == LastPresent(cells)
              && forall j' :: j < j' < |cells| ==> cells[j'].None?
  {
    var n := |cells| - 1;
    if cells[n].Some? {
      assert cells[n] == LastPresent(cells);
    } else {
      var front := cells[..n];
      assert !AllMissing(front) by {
        var p :| 0 <= p < |cells| && cells[p].Some?;
        assert front[p] == cells[p];
      }
      LastPresentIsNearest(front);
      var j :| 0 <= j < |front| && front[j] == LastPresent(front)
        && forall j' :: j < j' < |front| ==> front[j'].None?;
      assert cells[j] == LastPresent(cells);
      assert forall j' :: j < j' < |cells| ==> cells[j'].None? by {
        assert forall j' :: j < j' < n ==> cells[j'] == front[j'];
      }
    }
  }

  /** FirstPresent is None exactly when every cell is missing. */
  lemma {:induction false} FirstPresentMissing(cells: seq<Cell>)
    ensures FirstPresent(cells).None? <==> AllMissing(cells)
  {
    if cells != [] && cells[0].None? {
      var rest := cells[1..];
      FirstPresentMissing(rest);
      assert forall i :: 0 < i < |cells| ==> cells[i] == rest[i - 1];
    }
  }

  /** FirstPresent, when some value is present, is the value at the first present position. */
  lemma {:induction false} FirstPresentIsNearest(cells: seq<Cell>)
    requires !AllMissing(cells)
    ensures exists j ::
              && 0 <= j < |cells| && cells[j] == FirstPresent(cells)
              && forall j' :: 0 <= j' < j ==> cells[j'].None?
  {
    if cells[0].Some? {
      assert cells[0] == FirstPresent(cells);
    } else {
      var rest := cells[1..];
      assert !AllMissing(rest) by {
        var p :| 0 <= p < |cells| && cells[p].Some?;
        assert rest[p - 1] == cells[p];
      }
      FirstPresentIsNearest(rest);
      var j :| 0 <= j < |rest| && rest[j] == FirstPresent(rest)
        && forall j' :: 0 <= j' < j ==> rest[j'].None?;
      assert cells[j + 1] == FirstPresent(cells);
      assert forall j' :: 0 <= j' < j + 1 ==> cells[j'].None? by {
        assert forall j' :: 0 < j' < j + 1 ==> cells[j'] == rest[j' - 1];
      }
    }
  }

  /** Prepending a cell only matters to LastPresent when nothing after it is present. */
  lemma {:induction false} LastPresentCons(x: Cell, cells: seq<Cell>)
    ensures LastPresent([x] + cells) == if LastPresent(cells).Some? then LastPresent(cells) else x
  {
    if cells == [] {
      assert [x] + cells == [x];
      assert [x][..0] == [];
    } else {
      var n := |cells| - 1;
      assert ([x] + cells)[..n + 1] == [x] + cells[..n];
      LastPresentCons(x, cells[..n]);
    }
  }

  /** Appending a cell only matters to FirstPresent when nothing before it is present. */
  lemma {:induction false} FirstPresentSnoc(cells: seq<Cell>, x: Cell)
    ensures FirstPresent(cells + [x]) == if FirstPresent(cells).Some? then FirstPresent(cells) else x
  {
    if cells == [] {
      assert cells + [x] == [x];
      assert [x][1..] == [];
    } else {
      assert (cells + [x])[1..] == cells[1..] + [x];
      FirstPresentSnoc(cells[1..], x);
    }
  }

  /** Each forward-filled cell is the nearest present value at or before it, else the carry. */
  lemma {:induction false} FillForwardAt(cells: seq<Cell>, carry: Cell, i: nat)
    requires i < |cells|
    ensures FillForward(cells, carry)[i]
      == if LastPresent(cells[..i + 1]).Some? then LastPresent(cells[..i + 1]) else carry
  {
    var c := if cells[0].Some? then cells[0] else carry;
    if i == 0 {
      assert cells[..1] == [cells[0]];
      assert [cells[0]][..0] == [];
    } else {
      FillForwardAt(cells[1..], c, i - 1);
      assert cells[..i + 1] == [cells[0]] + cells[1..][..i];
      LastPresentCons(cells[0], cells[1..][..i]);
    }
  }

  /** Each backward-filled cell is the nearest present value at or after it, else the carry. */
  lemma {:induction false} FillBackwardAt(cells: seq<Cell>, carry: Cell, i: nat)
    requires i < |cells|
    ensures FillBackward(cells, carry)[i]
      == if FirstPresent(cells[i..]).Some? then FirstPresent(cells[i..]) else carry
  {
    var n := |cells| - 1;
    var c := if cells[n].Some? then cells[n] else carry;
    if i == n {
      assert cells[n..] == [cells[n]];
      assert [cells[n]][1..] == [];
    } else {
      FillBackwardAt(cells[..n], c, i);
      assert cells[i..] == cells[..n][i..] + [cells[n]];
      FirstPresentSnoc(cells[..n][i..], cells[n]);
    }
  }

  /**
   * When nothing before position i is present, the first present value from i on is the same
   * before and after the forward fill.
   */
  lemma {:induction false} FirstPresentAfterForwardFill(cells: seq<Cell>, i: nat)
    requires i <= |cells| && AllMissing(cells[..i])
    ensures FirstPresent(ForwardFill(cells)[i..]) == FirstPresent(cells[i..])
    decreases |cells| - i
  {
    var f := ForwardFill(cells);
    if i < |cells| {
      if cells[i].None? {
        FillForwardAt(cells, None, i);
        assert cells[..i + 1] == cells[..i] + [None];
        assert AllMissing(cells[..i + 1]);
        LastPresentMissing(cells[..i + 1]);
        assert f[i..][1..] == f[i + 1..];
        assert cells[i..][1..] == cells[i + 1..];
        FirstPresentAfterForwardFill(cells, i + 1);
      }
    }
  }

  /**
   * The fill of one column, position by position: the nearest earlier (or same) present value
   * if there is one, otherwise the nearest later present value, otherwise still missing.
   */
  lemma FillAt(cells: seq<Cell>, i: nat)
    requires i < |cells|
    ensures |Fill(cells)| == |cells|
    ensures Fill(cells)[i] == NearestPresent(cells, i)
  {
    var f := ForwardFill(cells);
    FillBackwardAt(f, None, i);
    FillForwardAt(cells, None, i);
    if LastPresent(cells[..i + 1]).None? {
      LastPresentMissing(cells[..i + 1]);
      assert AllMissing(cells[..i]) by {
        assert forall j :: 0 <= j < i ==> cells[..i][j] == cells[..i + 1][j];
      }
      FirstPresentAfterForwardFill(cells, i);
    } else {
      assert f[i..][0] == f[i];
    }
  }

  /** One present value anywhere in the column fills position i. */
  lemma FillReaches(cells: seq<Cell>, i: nat, p: nat)
    requires i < |cells| && p < |cells| && cells[p].Some?
    ensures Fill(cells)[i].Some?
  {
    FillAt(cells, i);
    if LastPresent(cells[..i + 1]).None? {
      LastPresentMissing(cells[..i + 1]);
      assert cells[i..][p - i] == cells[p];
      FirstPresentMissing(cells[i..]);
    }
  }

  /** An all-missing column is left as it is. */
  lemma FillKeepsMissing(cells: seq<Cell>, i: nat)
    requires i < |cells| && AllMissing(cells)
    ensures Fill(cells)[i] == cells[i]
  {
    FillAt(cells, i);
    assert AllMissing(cells[..i + 1]) by {
      assert forall j :: 0 <= j < i + 1 ==> cells[..i + 1][j] == cells[j];
    }
    assert AllMissing(cells[i..]) by {
      assert forall j :: 0 <= j < |cells| - i ==> cells[i..][j] == cells[i + j];
    }
    LastPresentMissing(cells[..i + 1]);
    FirstPresentMissing(cells[i..]);
  }

  /**
   * A column with at least one present value has no gaps after the fill; an all-missing column
   * is left all-missing. Present values and the length are kept in both cases.
   */
  lemma FillComplete(cells: seq<Cell>)
    ensures |Fill(cells)| == |cells|
    ensures forall i :: 0 <= i < |cells| && cells[i].Some? ==> Fill(cells)[i] == cells[i]
    ensures !AllMissing(cells) ==> NoGaps(Fill(cells))
    ensures AllMissing(cells) ==> Fill(cells) == cells
  {
    if !AllMissing(cells) {
      var p :| 0 <= p < |cells| && cells[p].Some?;
      forall i | 0 <= i < |cells|
        ensures Fill(cells)[i].Some?
      {
        FillReaches(cells, i, p);
      }
    } else {
      forall i | 0 <= i < |cells|
        ensures Fill(cells)[i] == cells[i]
      {
        FillKeepsMissing(cells, i);
      }
    }
  }

  /** Neither fill changes a column without gaps. */
  lemma FillsKeepNoGaps(cells: seq<Cell>, carry: Cell)
    requires NoGaps(cells)
    ensures FillForward(cells, carry) == cells
    ensures FillBackward(cells, carry) == cells
  {
  }

  /** Filling a filled column changes nothing. */
  lemma FillIdempotent(cells: seq<Cell>)
    ensures Fill(Fill(cells)) == Fill(cells)
  {
    FillComplete(cells);
    if !AllMissing(cells) {
      FillsKeepNoGaps(Fill(cells), None);
      FillsKeepNoGaps(ForwardFill(Fill(cells)), None);
    }
  }

  // ---------------------------------------------------------------------------------------------
  // load_and_preprocess, up to the fill.

  /** `df.ffill().bfill()`: every column filled, names and index unchanged. */
  function FillTable(table: Table): Table
  {
    Table(table.index, seq(|table.columns|, c requires 0 <= c < |table.columns| =>
      Column(table.columns[c].name, Fill(table.columns[c].cells))))
  }

  /**
   * load_and_preprocess up to the fill: a missing path raises FileNotFoundError before anything
   * is read; otherwise the table read from it, with every column filled.
   */
  function LoadAndPreprocess(files: map<Path, Table>, csvPath: Path): (r: Result<Table, IoError>)
    ensures csvPath !in files <==> r == Err(FileNotFound(csvPath))
    ensures csvPath in files ==>
      var source := files[csvPath];
      && r.Ok?
      && r.value.index == source.index
      && |r.value.columns| == |source.columns|
      && forall c :: 0 <= c < |source.columns| ==>
           var cells, filled := source.columns[c].cells, r.value.columns[c].cells;
           && r.value.columns[c].name == source.columns[c].name
           && |filled| == |cells|
           && (!AllMissing(cells) ==> NoGaps(filled))
           && (AllMissing(cells) ==> filled == cells)
           && forall i :: 0 <= i < |cells| ==> filled[i] == NearestPresent(cells, i)
  {
    if csvPath !in files then Err(FileNotFound(csvPath))
    else
      var source := files[csvPath];
      FillTableAt(source);
      Ok(FillTable(source))
  }

  /** FillTable, column by column and cell by cell. */
  lemma FillTableAt(table: Table)
    ensures var filled := FillTable(table);
      && filled.index == table.index
      && |filled.columns| == |table.columns|
      && forall c :: 0 <= c < |table.columns| ==>
           var cells, out := table.columns[c].cells, filled.columns[c].cells;
           && filled.columns[c].name == table.columns[c].name
           && |out| == |cells|
           && (!AllMissing(cells) ==> NoGaps(out))
           && (AllMissing(cells) ==> out == cells)
           && forall i :: 0 <= i < |cells| ==> out[i] == NearestPresent(cells, i)
  {
    forall c | 0 <= c < |table.columns|
      ensures var cells := table.columns[c].cells;
        && (!AllMissing(cells) ==> NoGaps(Fill(cells)))
        && (AllMissing(cells) ==> Fill(cells) == cells)
        && forall i :: 0 <= i < |cells| ==> Fill(cells)[i] == NearestPresent(cells, i)
    {
      var cells := table.columns[c].cells;
      FillComplete(cells);
      forall i | 0 <= i < |cells|
        ensures Fill(cells)[i] == NearestPresent(cells, i)
      {
        FillAt(cells, i);
      }
    }
  }

  // ---------------------------------------------------------------------------------------------
  // train_test_split.

  /** Python's int() on a real: truncation toward zero. */
  function Trunc(x: real): (r: int)
    ensures 0.0 <= x ==> r as real <= x < r as real + 1.0
    ensures x < 0.0 ==> r as real - 1.0 < x <= r as real
  {
    if x >= 0.0 then x.Floor else -((-x).Floor)
  }

  /** Where a slice bound k lands in n rows: a negative bound counts from the end; both clamp. */
  function SliceBound(n: nat, k: int): (b: nat)
    ensures b <= n
    ensures 0 <= k <= n ==> b == k
    ensures n <= k ==> b == n
  {
    if k < 0 then (if n + k >= 0 then n + k else 0) else if k <= n then k else n
  }

  /**
   * train_test_split: the rows before int(len * ratio) (as an iloc slice bound) and the rows from
   * there on. The two parts always make up the input, in order; for a ratio in [0, 1] the first
   * holds exactly floor(len * ratio) rows.
   */
  function TrainTestSplit<T>(rows: seq<T>, ratio: real): (r: (seq<T>, seq<T>))
    ensures r.0 + r.1 == rows
    ensures 0.0 <= ratio <= 1.0 ==> |r.0| == (|rows| as real * ratio).Floor
    ensures 1.0 <= ratio ==> r.0 == rows && r.1 == []
  {
    var split := SliceBound(|rows|, Trunc(|rows| as real * ratio));
    SplitIndex(|rows|, ratio);
    assert rows[..split] + rows[split..] == rows;
    (rows[..split], rows[split..])
  }

  /** Where the split lands: floor(n * ratio) for a ratio in [0, 1], and the end for a ratio of at least 1. */
  lemma SplitIndex(n: nat, ratio: real)
    ensures 0.0 <= ratio <= 1.0 ==> SliceBound(n, Trunc(n as real * ratio)) == (n as real * ratio).Floor
    ensures 1.0 <= ratio ==> SliceBound(n, Trunc(n as real * ratio)) == n
  {
    var x := n as real * ratio;
    if 0.0 <= ratio <= 1.0 {
      MulMonotone(ratio, 1.0, n as real);
      MulNonNegative(ratio, n as real);
      assert 0.0 <= x <= n as real;
      assert 0 <= Trunc(x) <= n;
    }
    if 1.0 <= ratio {
      MulMonotone(1.0, ratio, n as real);
      assert n as real <= x;
      assert n <= Trunc(x);
    }
  }

  /** The default split of 500 rows: 400 for training, 100 for testing. */
  lemma DefaultSplitOf500<T>(rows: seq<T>)
    requires |rows| == 500
    ensures |TrainTestSplit(rows, 0.8).0| == 400 && |TrainTestSplit(rows, 0.8).1| == 100
  {
  }

  /**
   * With rows in strictly increasing key order (the datetime index), every training row precedes
   * every test row, so no row is in both parts.
   */
  lemma SplitIsChronological<T>(rows: seq<T>, key: T -> int, ratio: real)
    requires forall a, b :: 0 <= a < b < |rows| ==> key(rows[a]) < key(rows[b])
    ensures var (train, test) := TrainTestSplit(rows, ratio);
      && (forall x, y :: x in train && y in test ==> key(x) < key(y))
      && (forall x :: !(x in train && x in test))
  {
    var (train, test) := TrainTestSplit(rows, ratio);
    forall x, y | x in train && y in test
      ensures key(x) < key(y)
    {
      var a :| 0 <= a < |train| && train[a] == x;
      var b :| 0 <= b < |test| && test[b] == y;
      assert rows[a] == x && rows[|train| + b] == y;
    }
  }
}
