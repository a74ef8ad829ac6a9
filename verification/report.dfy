/** The PDF report helper: the run label `prefix_n` kept in a JSON state
    file from one report to the next, and the grid of per-question averages
    three to a row. The state file is a value: `None` when it does not exist. */
module ReportState {
  import opened Wrappers
  import opened Text
  import opened ReportLayout

  /** The state file's contents, or `None` when there is no file. */
  type StateFile = Option<map<string, int>>

  /** `load_state(prefix)`: the prefix and its stored counter when the file
      holds the prefix, the default `("", 1)` otherwise. */
  function LoadState(file: StateFile, prefix: string): (r: (string, int))
    ensures r.0 == prefix || r == ("", 1)
  {
    if file.Some? && prefix in file.value then (prefix, file.value[prefix]) else ("", 1)
  }

  /** `save_state(prefix, counter)`: writes only into an existing file. */
  function SaveState(file: StateFile, prefix: string, counter: int): (r: StateFile)
    ensures r.Some? <==> file.Some?
  {
    if file.Some? then Some(file.value[prefix := counter]) else None
  }

  /** What saving then loading gives back: the saved counter under the
      prefix when a file exists, the default otherwise; no other key moves. */
  lemma SaveLoad(file: StateFile, prefix: string, counter: int)
    ensures file.Some? ==> LoadState(SaveState(file, prefix, counter), prefix) == (prefix, counter)
    ensures file.None? ==> LoadState(SaveState(file, prefix, counter), prefix) == ("", 1)
    ensures file.Some? ==> SaveState(file, prefix, counter).value.Keys == file.value.Keys + {prefix}
    ensures file.Some? ==> forall k :: k in file.value && k != prefix ==>
      SaveState(file, prefix, counter).value[k] == file.value[k]
  {
  }

  /** One report: the file after it and the label in its name. */
  datatype Report = Report(file: StateFile, runName: string)

  /** The labelling logic of `create_pdf_report` and its final `save_state`. */
  function CreateReport(file: StateFile, prefix: string): (r: Report)
    ensures r.file.Some? <==> file.Some?
  {
    var (name, counter) := LoadState(file, prefix);
    if name == prefix then
      Report(SaveState(file, name, counter + 1), prefix + "_" + IntToString(counter + 1))
    else
      Report(SaveState(file, prefix, counter), prefix + "_1")
  }

  /** The number a report gets: one past the stored counter, else 1 — or 2
      for the empty prefix, which matches the default name. */
  function NextNumber(file: StateFile, prefix: string): int {
    if file.Some? && prefix in file.value then file.value[prefix] + 1
    else if prefix == "" then 2
    else 1
  }

  /** The label is `prefix_n` for the next number, and an existing file
      records that number under the prefix and keeps every other entry. */
  lemma CreateReportSpec(file: StateFile, prefix: string)
    ensures CreateReport(file, prefix).runName == prefix + "_" + IntToString(NextNumber(file, prefix))
    ensures file.Some? ==> LoadState(CreateReport(file, prefix).file, prefix) == (prefix, NextNumber(file, prefix))
    ensures file.Some? ==> forall k :: k in file.value && k != prefix ==>
      k in CreateReport(file, prefix).file.value && CreateReport(file, prefix).file.value[k] == file.value[k]
  {
    assert IntToString(1) == "1";
  }

  /** The empty prefix with nothing stored is labelled `_2`. */
  lemma EmptyPrefixStartsAtTwo(file: StateFile)
    requires file.None? || "" !in file.value
    ensures CreateReport(file, "").runName == "_2"
  {
    assert IntToString(2) == "2";
  }

  /** `k` reports in a row for the same prefix: the file after them and
      their labels in order. */
  function Reports(file: StateFile, prefix: string, k: nat): (r: (StateFile, seq<string>))
    ensures |r.1| == k
    ensures r.0.Some? <==> file.Some?
  {
    if k == 0 then (file, [])
    else
      var (f, labels) := Reports(file, prefix, k - 1);
      var one := CreateReport(f, prefix);
      (one.file, labels + [one.runName])
  }

  /** With a state file, consecutive reports for a prefix stored with
      counter `c` are numbered `c + 1, c + 2, …`. */
  lemma ReportsCount(st: map<string, int>, prefix: string, k: nat)
    requires prefix in st
    ensures var r := Reports(Some(st), prefix, k);
      r.0.Some? && prefix in r.0.value && r.0.value[prefix] == st[prefix] + k
    ensures forall i :: 0 <= i < k ==>
      Reports(Some(st), prefix, k).1[i] == prefix + "_" + IntToString(st[prefix] + i + 1)
  {
    ReportsFile(st, prefix, k);
    forall i | 0 <= i < k
      ensures Reports(Some(st), prefix, k).1[i] == prefix + "_" + IntToString(st[prefix] + i + 1)
    {
      ReportsLabelAt(st, prefix, k, i);
    }
  }

  /** After `k` reports the stored counter has moved on by `k`. */
  lemma {:induction false} ReportsFile(st: map<string, int>, prefix: string, k: nat)
    requires prefix in st
    ensures var r := Reports(Some(st), prefix, k);
      r.0.Some? && prefix in r.0.value && r.0.value[prefix] == st[prefix] + k
  {
    if k > 0 {
      ReportsFile(st, prefix, k - 1);
      CreateReportSpec(Reports(Some(st), prefix, k - 1).0, prefix);
    }
  }

  /** The label of report number `i`. */
  lemma {:induction false} ReportsLabelAt(st: map<string, int>, prefix: string, k: nat, i: nat)
    requires prefix in st && i < k
    ensures Reports(Some(st), prefix, k).1[i] == prefix + "_" + IntToString(st[prefix] + i + 1)
  {
    var (f, labels) := Reports(Some(st), prefix, k - 1);
    var one := CreateReport(f, prefix);
    assert Reports(Some(st), prefix, k).1 == labels + [one.runName];
    if i == k - 1 {
      ReportsFile(st, prefix, k - 1);
      CreateReportSpec(f, prefix);
    } else {
      ReportsLabelAt(st, prefix, k - 1, i);
      assert (labels + [one.runName])[i] == labels[i];
    }
  }

  /** With a state file and a new non-empty prefix, the reports are
      labelled `prefix_1, prefix_2, …`. */
  lemma FreshPrefixReports(st: map<string, int>, prefix: string, k: nat)
    requires prefix != "" && prefix !in st
    ensures forall i :: 0 <= i < k ==> Reports(Some(st), prefix, k).1[i] == prefix + "_" + IntToString(i + 1)
  {
    if k > 0 {
      var first := CreateReport(Some(st), prefix);
      CreateReportSpec(Some(st), prefix);
      var st1 := first.file.value;
      assert first.file == Some(st1) && st1[prefix] == 1;
      ReportsShift(st, prefix, k);
      ReportsCount(st1, prefix, k - 1);
      var labels := Reports(Some(st), prefix, k).1;
      var rest := Reports(Some(st1), prefix, k - 1).1;
      assert labels == [first.runName] + rest;
      forall i | 0 <= i < k ensures labels[i] == prefix + "_" + IntToString(i + 1) {
        if i > 0 {
          assert labels[i] == rest[i - 1];
        }
      }
    }
  }

  /** A run of `k` reports is the first report followed by `k - 1` more. */
  lemma {:induction false} ReportsShift(st: map<string, int>, prefix: string, k: nat)
    requires k > 0
    ensures var first := CreateReport(Some(st), prefix);
      Reports(Some(st), prefix, k) ==
        (Reports(first.file, prefix, k - 1).0, [first.runName] + Reports(first.file, prefix, k - 1).1)
    decreases k
  {
    var first := CreateReport(Some(st), prefix);
    if k > 1 {
      ReportsShift(st, prefix, k - 1);
      var (f, labels) := Reports(first.file, prefix, k - 2);
      var one := CreateReport(f, prefix);
      assert [first.runName] + labels + [one.runName] == [first.runName] + (labels + [one.runName]);
    } else {
      assert Reports(first.file, prefix, 0) == (first.file, []);
      assert [] + [first.runName] == [first.runName] + [];
    }
  }

  /** Without a state file nothing persists: every report of a non-empty
      prefix is labelled `prefix_1`. */
  lemma {:induction false} NoFileAlwaysFirst(prefix: string, k: nat)
    requires prefix != ""
    ensures Reports(None, prefix, k).0.None?
    ensures forall i :: 0 <= i < k ==> Reports(None, prefix, k).1[i] == prefix + "_1"
  {
    if k > 0 {
      NoFileAlwaysFirst(prefix, k - 1);
    }
  }

  // The data grid.

  /** One slot of the data grid: a question with its average, or blank. */
  datatype Slot = Filled(question: nat, average: real) | Blank

  /** The three slots of the grid row that starts at position `i`. */
  function GridRow(avgs: seq<real>, i: nat): (row: seq<Slot>)
    ensures |row| == 3
  {
    seq(3, j requires 0 <= j < 3 => if i + j < |avgs| then Filled(i + j + 1, avgs[i + j]) else Blank)
  }

  /** The rows for positions `i, i + 3, …` (`for i in range(0, n, 3)`). */
  function GridFrom(avgs: seq<real>, i: nat): (rows: seq<seq<Slot>>)
    decreases |avgs| - i
  {
    if i >= |avgs| then [] else [GridRow(avgs, i)] + GridFrom(avgs, i + 3)
  }

  function Blanks(n: nat): (r: seq<Slot>)
    ensures |r| == n
  {
    seq(n, _ => Blank)
  }

  /** One slot per average from position `i` on, labelled by position. */
  function Cells(avgs: seq<real>, i: nat): (cells: seq<Slot>)
    requires i <= |avgs|
    ensures |cells| == |avgs| - i
  {
    seq(|avgs| - i, k requires 0 <= k < |avgs| - i => Filled(i + k + 1, avgs[i + k]))
  }

  /** The grid from position `i` on has `ceil((n - i) / 3)` rows; read row
      by row it is one slot per average, labelled by position, then blanks up
      to a multiple of three. */
  lemma {:induction false} GridFromCells(avgs: seq<real>, i: nat)
    requires i <= |avgs|
    ensures |GridFrom(avgs, i)| == (|avgs| - i + 2) / 3
    ensures Flatten(GridFrom(avgs, i)) == Cells(avgs, i) + Blanks((3 - (|avgs| - i) % 3) % 3)
    decreases |avgs| - i
  {
    var n := |avgs|;
    if i < n {
      assert Flatten(GridFrom(avgs, i)) == GridRow(avgs, i) + Flatten(GridFrom(avgs, i + 3));
      if i + 3 <= n {
        GridFromCells(avgs, i + 3);
        CellsSplit(avgs, i);
        BlankCount(n - i);
      } else {
        GridTail(avgs, i);
      }
    }
  }

  /** A full row takes the next three cells. */
  lemma CellsSplit(avgs: seq<real>, i: nat)
    requires i + 3 <= |avgs|
    ensures Cells(avgs, i) == GridRow(avgs, i) + Cells(avgs, i + 3)
  {
    var left := Cells(avgs, i);
    var right := GridRow(avgs, i) + Cells(avgs, i + 3);
    forall k | 0 <= k < |left| ensures left[k] == right[k] {
      if k >= 3 {
        assert right[k] == Cells(avgs, i + 3)[k - 3];
      }
    }
  }

  /** The last row holds the remaining one or two cells, then blanks. */
  lemma GridTail(avgs: seq<real>, i: nat)
    requires i < |avgs| < i + 3
    ensures |GridFrom(avgs, i)| == 1
    ensures Flatten(GridFrom(avgs, i)) == GridRow(avgs, i)
    ensures GridRow(avgs, i) == Cells(avgs, i) + Blanks((3 - (|avgs| - i) % 3) % 3)
  {
    assert GridFrom(avgs, i + 3) == [];
    assert GridFrom(avgs, i) == [GridRow(avgs, i)];
    assert Flatten([GridRow(avgs, i)]) == GridRow(avgs, i) + Flatten([GridRow(avgs, i)][1..]);
  }

  /** Taking a row off changes neither the number of trailing blanks nor the
      row count beyond one. */
  lemma BlankCount(m: nat)
    requires m >= 3
    ensures (3 - m % 3) % 3 == (3 - (m - 3) % 3) % 3
    ensures (m + 2) / 3 == (m - 3 + 2) / 3 + 1
  {
  }

  /** The report's data grid: `ceil(n / 3)` rows of exactly three slots,
      the questions in order and at most two blanks at the end. */
  lemma GridShape(avgs: seq<real>)
    ensures |GridFrom(avgs, 0)| == (|avgs| + 2) / 3
    ensures forall r :: 0 <= r < |GridFrom(avgs, 0)| ==> |GridFrom(avgs, 0)[r]| == 3
    ensures Flatten(GridFrom(avgs, 0)) ==
      seq(|avgs|, k requires 0 <= k < |avgs| => Filled(k + 1, avgs[k])) + Blanks((3 - |avgs| % 3) % 3)
  {
    GridFromCells(avgs, 0);
    assert Cells(avgs, 0) == seq(|avgs|, k requires 0 <= k < |avgs| => Filled(k + 1, avgs[k]));
    forall r | 0 <= r < |GridFrom(avgs, 0)| ensures |GridFrom(avgs, 0)[r]| == 3 {
      GridFromRow(avgs, 0, r);
    }
  }

  lemma {:induction false} GridFromRow(avgs: seq<real>, i: nat, r: nat)
    requires r < |GridFrom(avgs, i)|
    ensures GridFrom(avgs, i)[r] == GridRow(avgs, i + 3 * r)
    decreases r
  {
    if r > 0 {
      GridFromRow(avgs, i + 3, r - 1);
    }
  }
}
