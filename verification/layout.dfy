/** The layout of the generated reports: the category slices of the
    averages and their labels, the two-per-row averages table, and the
    placement of the category plots on the pages of the batch script's
    report (two per row, four per page). */
module ReportLayout {
  import opened Wrappers

  // Category slices.

  /** Python's `slice(start, stop)`; `stop == None` runs to the end. */
  datatype Slice = Slice(start: nat, stop: Option<nat>)

  /** The seven row slices of the merged averages table, one per category. */
  const CategorySlices: seq<Slice> := [
    Slice(0, Some(5)), Slice(5, Some(11)), Slice(11, Some(16)), Slice(16, Some(21)),
    Slice(21, Some(23)), Slice(23, Some(27)), Slice(27, None)]

  const CategoryLabels: seq<string> :=
    ["active", "passive", "questionable", "no harm", "downloading", "recycling", "doing good"]

  /** The rows `df.iloc[s]` selects from `n` rows: `[lo, hi)`, both clamped to `n`. */
  function Rows(s: Slice, n: nat): (b: (nat, nat))
    ensures b.0 <= b.1 <= n
  {
    var lo := if s.start < n then s.start else n;
    var stop := if s.stop.Some? then s.stop.value else n;
    var hi := if stop < n then stop else n;
    (lo, if hi < lo then lo else hi)
  }

  /** The category slice a row falls in. */
  function SliceIndex(i: nat): (k: nat)
    ensures k < |CategorySlices|
  {
    if i < 5 then 0 else if i < 11 then 1 else if i < 16 then 2 else if i < 21 then 3
    else if i < 23 then 4 else if i < 27 then 5 else 6
  }

  /** The slices pair one-to-one with the labels, start at row 0, each
      starts where the previous one stops, and only the last is open. */
  lemma SlicesContiguous()
    ensures |CategorySlices| == |CategoryLabels| == 7
    ensures CategorySlices[0].start == 0
    ensures forall k :: 0 <= k < |CategorySlices| - 1 ==>
      CategorySlices[k].stop == Some(CategorySlices[k + 1].start) && CategorySlices[k].start < CategorySlices[k + 1].start
    ensures CategorySlices[|CategorySlices| - 1].stop.None?
  {
  }

  /** Whatever the number of rows, every row is plotted in exactly one
      category: the one `SliceIndex` names. */
  lemma SlicesPartition(n: nat, i: nat)
    requires i < n
    ensures forall k :: 0 <= k < |CategorySlices| ==>
      (Rows(CategorySlices[k], n).0 <= i < Rows(CategorySlices[k], n).1 <==> k == SliceIndex(i))
  {
    SlicesContiguous();
  }

  // The averages table.

  /** One table cell, "Question {question}: {value:.2f}". */
  datatype Cell = Cell(question: nat, value: real)

  /** The cells of the table row that starts at position `i`. */
  function TableRow(avgs: seq<real>, i: nat): (row: seq<Cell>)
    requires i < |avgs|
    ensures 1 <= |row| <= 2 && (|row| == 2 <==> i + 1 < |avgs|)
  {
    [Cell(i + 1, avgs[i])] + (if i + 1 < |avgs| then [Cell(i + 2, avgs[i + 1])] else [])
  }

  /** The rows for positions `i, i + 2, …` (`for i in range(0, n, 2)`). */
  function TableFrom(avgs: seq<real>, i: nat): (rows: seq<seq<Cell>>)
    decreases |avgs| - i
  {
    if i >= |avgs| then [] else [TableRow(avgs, i)] + TableFrom(avgs, i + 2)
  }

  /** The averages table of the batch report. */
  function AveragesTable(avgs: seq<real>): seq<seq<Cell>> {
    TableFrom(avgs, 0)
  }

  function Flatten<T>(rows: seq<seq<T>>): seq<T> {
    if |rows| == 0 then [] else rows[0] + Flatten(rows[1..])
  }

  /** The cells from position `i` on, one per average, labelled by position. */
  lemma {:induction false} TableFromCells(avgs: seq<real>, i: nat)
    requires i <= |avgs|
    ensures |TableFrom(avgs, i)| == (|avgs| - i + 1) / 2
    ensures Flatten(TableFrom(avgs, i)) == seq(|avgs| - i, k requires 0 <= k < |avgs| - i => Cell(i + k + 1, avgs[i + k]))
    decreases |avgs| - i
  {
    if i < |avgs| {
      var rows := TableFrom(avgs, i);
      var next := if i + 2 <= |avgs| then i + 2 else |avgs|;
      TableFromCells(avgs, next);
      assert TableFrom(avgs, next) == TableFrom(avgs, i + 2);
      assert rows[1..] == TableFrom(avgs, i + 2);
    }
  }

  /** The table has ⌈n/2⌉ rows, lists every average once in order under
      its position, and every row holds two cells except a last row that
      holds one exactly when `n` is odd. */
  lemma AveragesTableShape(avgs: seq<real>)
    ensures |AveragesTable(avgs)| == (|avgs| + 1) / 2
    ensures Flatten(AveragesTable(avgs)) == seq(|avgs|, k requires 0 <= k < |avgs| => Cell(k + 1, avgs[k]))
    ensures forall r :: 0 <= r < |AveragesTable(avgs)| ==>
      (|AveragesTable(avgs)[r]| == 1 <==> r == |AveragesTable(avgs)| - 1 && |avgs| % 2 == 1)
  {
    TableFromCells(avgs, 0);
    forall r | 0 <= r < |AveragesTable(avgs)|
      ensures (|AveragesTable(avgs)[r]| == 1 <==> r == |AveragesTable(avgs)| - 1 && |avgs| % 2 == 1)
    {
      TableFromRow(avgs, 0, r);
    }
  }

  lemma {:induction false} TableFromRow(avgs: seq<real>, i: nat, r: nat)
    requires i <= |avgs| && r < |TableFrom(avgs, i)|
    ensures 2 * r + i < |avgs| && TableFrom(avgs, i)[r] == TableRow(avgs, 2 * r + i)
    decreases r
  {
    if r > 0 {
      var next := if i + 2 <= |avgs| then i + 2 else |avgs|;
      assert TableFrom(avgs, next) == TableFrom(avgs, i + 2);
      TableFromRow(avgs, next, r - 1);
    }
  }

  // Placement of the category plots.

  /** Where an image goes: the page (counted from the first page of
      plots) and the top-left corner in millimetres. */
  datatype Place = Place(page: nat, x: int, y: int)

  const ImageWidth := 90
  const ImageHeight := 60

  /** The loop body for image `i`, as written: a new page every fourth
      image resets `y` but keeps the `x` of the previous image. */
  function StepAsWritten(i: nat, prev: Place): Place {
    var page := if i > 0 && i % 4 == 0 then prev.page + 1 else prev.page;
    var y := if i > 0 && i % 4 == 0 then 30 else prev.y;
    if i % 2 == 0 && i % 4 != 0 then Place(page, 10, y + ImageHeight + 10)
    else if i % 2 != 0 then Place(page, 110, y)
    else Place(page, prev.x, y)
  }

  /** The loop body with `x` reset to the left column on a new page. */
  function Step(i: nat, prev: Place): Place {
    var p := StepAsWritten(i, prev);
    if i > 0 && i % 4 == 0 then Place(p.page, 10, p.y) else p
  }

  /** The places of images `i..n-1`, given the place of image `i - 1`
      (or the start offsets for `i == 0`). */
  function PlacesFrom(fixed: bool, i: nat, n: nat, prev: Place): (ps: seq<Place>)
    ensures |ps| == if i <= n then n - i else 0
    decreases n - i
  {
    if i >= n then []
    else
      var p := if fixed then Step(i, prev) else StepAsWritten(i, prev);
      [p] + PlacesFrom(fixed, i + 1, n, p)
  }

  const Start := Place(0, 10, 30)

  /** The placement loop of the batch report as written. */
  function PlacesAsWritten(n: nat): seq<Place> {
    PlacesFrom(false, 0, n, Start)
  }

  /** The placement loop with the left column restored on every page. */
  function Places(n: nat): seq<Place> {
    PlacesFrom(true, 0, n, Start)
  }

  /** The intended grid: four images a page, two per row, 100 mm apart
      across and 70 mm apart down. */
  function GridPlace(i: nat): Place {
    SlotPlace(i / 4, i % 4)
  }

  /** Slot `s` (0 to 3, row by row) of page `page`. */
  function SlotPlace(page: nat, s: nat): Place {
    Place(page, 10 + 100 * (s % 2), 30 + 70 * (s / 2))
  }

  /** Where the loop as written puts image `i`: the grid place, except that
      the first image of every later page sits in the right column. */
  function AsWrittenPlace(i: nat): Place {
    if i > 0 && i % 4 == 0 then Place(i / 4, 110, 30) else GridPlace(i)
  }

  /** One step of either loop moves from the closed form at `i - 1` to the
      closed form at `i`. */
  lemma StepGrid(i: nat)
    ensures i == 0 ==> Step(0, Start) == GridPlace(0) && StepAsWritten(0, Start) == AsWrittenPlace(0)
    ensures i > 0 ==> Step(i, GridPlace(i - 1)) == GridPlace(i)
    ensures i > 0 ==> StepAsWritten(i, AsWrittenPlace(i - 1)) == AsWrittenPlace(i)
  {
    if i > 0 {
      var page, r := i / 4, i % 4;
      PrevSlot(i);
      if r == 0 {
        assert GridPlace(i - 1) == SlotPlace(page - 1, 3);
      } else {
        assert GridPlace(i - 1) == SlotPlace(page, r - 1);
      }
    }
  }

  /** Image `i - 1` sits in the slot before image `i`'s, on the page before
      when `i` opens a page. */
  lemma PrevSlot(i: nat)
    requires i > 0
    ensures i % 2 == (i % 4) % 2
    ensures i % 4 == 0 ==> i / 4 >= 1 && (i - 1) / 4 == i / 4 - 1 && (i - 1) % 4 == 3
    ensures i % 4 != 0 ==> (i - 1) / 4 == i / 4 && (i - 1) % 4 == i % 4 - 1
  {
    var q, r := i / 4, i % 4;
    DivModUnique2(r, r / 2, r % 2);
    DivModUnique2(i, 2 * q + r / 2, r % 2);
    if r == 0 {
      DivModUnique4(i - 1, q - 1, 3);
    } else {
      DivModUnique4(i - 1, q, r - 1);
    }
  }

  /** Quotient and remainder by 4 are determined by `n == 4 * q + r`. */
  lemma DivModUnique4(n: int, q: int, r: int)
    requires 0 <= r < 4 && n == 4 * q + r
    ensures n / 4 == q && n % 4 == r
  {
    var q', r' := n / 4, n % 4;
    assert 4 * (q - q') == r' - r;
  }

  /** The same by 2. */
  lemma DivModUnique2(n: int, q: int, r: int)
    requires 0 <= r < 2 && n == 2 * q + r
    ensures n / 2 == q && n % 2 == r
  {
    var q', r' := n / 2, n % 2;
    assert 2 * (q - q') == r' - r;
  }

  /** The closed form each loop follows. */
  function Target(fixed: bool, i: nat): Place {
    if fixed then GridPlace(i) else AsWrittenPlace(i)
  }

  /** The loop state before image `i`. */
  function Before(fixed: bool, i: nat): Place {
    if i == 0 then Start else Target(fixed, i - 1)
  }

  lemma {:induction false} PlacesFromGrid(fixed: bool, i: nat, n: nat)
    requires i <= n
    ensures forall k :: i <= k < n ==> PlacesFrom(fixed, i, n, Before(fixed, i))[k - i] == Target(fixed, k)
    decreases n - i
  {
    if i < n {
      StepGrid(i);
      var p := if fixed then Step(i, Before(fixed, i)) else StepAsWritten(i, Before(fixed, i));
      assert p == Target(fixed, i) == Before(fixed, i + 1);
      PlacesFromGrid(fixed, i + 1, n);
      var ps := PlacesFrom(fixed, i, n, Before(fixed, i));
      assert ps == [p] + PlacesFrom(fixed, i + 1, n, Before(fixed, i + 1));
    }
  }

  /** The loop as written follows `AsWrittenPlace`; the corrected loop follows the grid. */
  lemma PlacesClosedForm(n: nat)
    ensures |PlacesAsWritten(n)| == |Places(n)| == n
    ensures forall i :: 0 <= i < n ==> PlacesAsWritten(n)[i] == AsWrittenPlace(i)
    ensures forall i :: 0 <= i < n ==> Places(n)[i] == GridPlace(i)
  {
    PlacesFromGrid(false, 0, n);
    PlacesFromGrid(true, 0, n);
    forall i | 0 <= i < n
      ensures PlacesAsWritten(n)[i] == AsWrittenPlace(i) && Places(n)[i] == GridPlace(i)
    {
      assert PlacesFrom(false, 0, n, Before(false, 0))[i - 0] == Target(false, i);
      assert PlacesFrom(true, 0, n, Before(true, 0))[i - 0] == Target(true, i);
    }
  }

  /** Two images on different pages, or side by side, or one above the other. */
  predicate Apart(a: Place, b: Place) {
    || a.page != b.page
    || a.x + ImageWidth <= b.x || b.x + ImageWidth <= a.x
    || a.y + ImageHeight <= b.y || b.y + ImageHeight <= a.y
  }

  /** With the correction no two images overlap, and the seven category
      plots fill two pages. */
  lemma PlacesApart(n: nat)
    ensures forall i, j :: 0 <= i < j < n ==> Apart(Places(n)[i], Places(n)[j])
    ensures n <= 8 ==> forall i :: 0 <= i < n ==> Places(n)[i].page <= 1
  {
    PlacesClosedForm(n);
    forall i, j | 0 <= i < j < n ensures Apart(GridPlace(i), GridPlace(j)) {
      GridApart(i, j);
    }
  }

  lemma GridApart(i: nat, j: nat)
    requires i < j
    ensures Apart(GridPlace(i), GridPlace(j))
  {
    var page, a, b := i / 4, i % 4, j % 4;
    if page == j / 4 {
      assert a < b by {
        assert i == 4 * page + a && j == 4 * page + b;
      }
      SlotsApart(page, a, b);
    }
  }

  /** Two different slots of one page do not overlap. */
  lemma SlotsApart(page: nat, a: nat, b: nat)
    requires a < b < 4
    ensures Apart(SlotPlace(page, a), SlotPlace(page, b))
  {
    if a == 0 {
      assert b == 1 || b == 2 || b == 3;
    } else if a == 1 {
      assert b == 2 || b == 3;
    }
  }

  /** As written, the fifth and sixth of the seven plots land on the same
      spot of the second page, so the sixth covers the fifth. */
  lemma PlacesAsWrittenOverlap()
    ensures PlacesAsWritten(7)[4] == PlacesAsWritten(7)[5] == Place(1, 110, 30)
    ensures !Apart(PlacesAsWritten(7)[4], PlacesAsWritten(7)[5])
  {
    PlacesClosedForm(7);
  }
}
