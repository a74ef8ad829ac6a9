/** The per-question summary the three evaluation scripts compute from
    their rows: the answers converted with `astype(int)`, grouped by
    question number (`groupby("#")`), their mean and sample spread, the
    mean copied back to every row (`transform("mean")`), and the blanking of
    repeated cells (`mask(duplicated())`). */
module Summary {
  import opened Wrappers
  import opened Text
  import opened Stats
  import opened Records
  import opened Sequential

  /** A row after `astype(int)`: its question number and integer answer. */
  datatype Scored = Scored(num: int, value: int)

  /** The range of numpy's `int64`, the type `astype(int)` converts to. */
  const Int64Min: int := -0x8000_0000_0000_0000
  const Int64Max: int := 0x7FFF_FFFF_FFFF_FFFF

  /** An answer `astype(int)` accepts: it parses, and its value fits in
      `int64` (a larger one raises OverflowError). */
  predicate Converts(answer: string) {
    ParseInt(answer).Some? && Int64Min <= ParseInt(answer).value <= Int64Max
  }

  /** `df[answers].astype(int)`: every answer converted with `int`, or
      `None` where one of them does not convert (pandas raises). */
  function AsInts(rows: seq<(int, string)>): (r: Option<seq<Scored>>)
    ensures r.Some? <==> forall k :: 0 <= k < |rows| ==> Converts(rows[k].1)
    ensures r.Some? ==> |r.value| == |rows|
    ensures r.Some? ==> forall k :: 0 <= k < |rows| ==>
      r.value[k].num == rows[k].0 && ParseInt(rows[k].1) == Some(r.value[k].value)
  {
    if forall k :: 0 <= k < |rows| ==> Converts(rows[k].1) then
      Some(seq(|rows|, k requires 0 <= k < |rows| => Scored(rows[k].0, ParseInt(rows[k].1).value)))
    else None
  }

  /** Answers written as `str(v)` convert back to `v` when `v` fits in
      `int64`. */
  lemma AsIntsOfRendered(nums: seq<int>, values: seq<int>)
    requires |nums| == |values|
    requires forall k :: 0 <= k < |values| ==> Int64Min <= values[k] <= Int64Max
    ensures AsInts(seq(|nums|, k requires 0 <= k < |nums| => (nums[k], IntToString(values[k]))))
      == Some(seq(|nums|, k requires 0 <= k < |nums| => Scored(nums[k], values[k])))
  {
    var rows := seq(|nums|, k requires 0 <= k < |nums| => (nums[k], IntToString(values[k])));
    forall k | 0 <= k < |nums| ensures ParseInt(rows[k].1) == Some(values[k]) {
      ParseIntRoundTrip(values[k]);
    }
    assert AsInts(rows).Some?;
    assert AsInts(rows).value == seq(|nums|, k requires 0 <= k < |nums| => Scored(nums[k], values[k]));
  }

  /** An answer one past the `int64` range parses but does not convert, so
      the whole conversion fails. */
  lemma AsIntsOverflow(num: int)
    ensures AsInts([(num, IntToString(Int64Max + 1))]).None?
  {
    ParseIntRoundTrip(Int64Max + 1);
    assert !Converts([(num, IntToString(Int64Max + 1))][0].1);
  }

  /** The answers of the rows for question `n`, in row order. */
  function ValuesFor(rs: seq<Scored>, n: int): (vs: seq<real>)
    ensures |vs| <= |rs|
    decreases |rs|
  {
    if |rs| == 0 then []
    else
      var r := rs[|rs| - 1];
      ValuesFor(rs[..|rs| - 1], n) + (if r.num == n then [r.value as real] else [])
  }

  /** The question numbers that occur. */
  function Nums(rs: seq<Scored>): set<int> {
    set k | 0 <= k < |rs| :: rs[k].num
  }

  /** A question has answers exactly when some row carries its number. */
  lemma {:induction false} ValuesForNonEmpty(rs: seq<Scored>, n: int)
    ensures |ValuesFor(rs, n)| > 0 <==> n in Nums(rs)
    decreases |rs|
  {
    if |rs| > 0 {
      var init := rs[..|rs| - 1];
      ValuesForNonEmpty(init, n);
      if n in Nums(init) {
        var k :| 0 <= k < |init| && init[k].num == n;
        assert rs[k].num == n;
      }
      if n in Nums(rs) && rs[|rs| - 1].num != n {
        var k :| 0 <= k < |rs| && rs[k].num == n;
        assert init[k].num == n;
      }
    }
  }

  /** Every answer of question `n` lies in `[lo, hi]` when every answer does. */
  lemma {:induction false} ValuesForBounds(rs: seq<Scored>, n: int, lo: int, hi: int)
    requires forall k :: 0 <= k < |rs| ==> lo <= rs[k].value <= hi
    ensures forall i :: 0 <= i < |ValuesFor(rs, n)| ==> lo as real <= ValuesFor(rs, n)[i] <= hi as real
    decreases |rs|
  {
    if |rs| > 0 {
      ValuesForBounds(rs[..|rs| - 1], n, lo, hi);
    }
  }

  /** When question `n` has a single row, its answers are that row's answer. */
  lemma {:induction false} ValuesForSingle(rs: seq<Scored>, k: nat)
    requires k < |rs|
    requires forall j :: 0 <= j < |rs| && j != k ==> rs[j].num != rs[k].num
    ensures ValuesFor(rs, rs[k].num) == [rs[k].value as real]
    decreases |rs|
  {
    var n := rs[k].num;
    var init := rs[..|rs| - 1];
    if k == |rs| - 1 {
      ValuesForNonEmpty(init, n);
      assert n !in Nums(init);
    } else {
      assert init[k] == rs[k];
      ValuesForSingle(init, k);
    }
  }

  /** The mean answer of question `n`. */
  function GroupMean(rs: seq<Scored>, n: int): real
    requires n in Nums(rs)
  {
    ValuesForNonEmpty(rs, n);
    Mean(ValuesFor(rs, n))
  }

  /** `df.groupby("#")[answers].mean()`: one mean per question number that occurs. */
  function Averages(rs: seq<Scored>): (avg: map<int, real>)
    ensures avg.Keys == Nums(rs)
  {
    map n | n in Nums(rs) :: GroupMean(rs, n)
  }

  /** Answers on the 1-to-5 scale give averages on the same scale. */
  lemma AveragesInRange(rs: seq<Scored>, lo: int, hi: int)
    requires forall k :: 0 <= k < |rs| ==> lo <= rs[k].value <= hi
    ensures forall n :: n in Averages(rs) ==> lo as real <= Averages(rs)[n] <= hi as real
  {
    forall n | n in Averages(rs) ensures lo as real <= Averages(rs)[n] <= hi as real {
      ValuesForNonEmpty(rs, n);
      ValuesForBounds(rs, n, lo, hi);
      MeanBounds(ValuesFor(rs, n), lo as real, hi as real);
    }
  }

  /** The mean of a question asked once is its one answer. */
  lemma AverageOfSingle(rs: seq<Scored>, k: nat)
    requires k < |rs|
    requires forall j :: 0 <= j < |rs| && j != k ==> rs[j].num != rs[k].num
    ensures rs[k].num in Averages(rs) && Averages(rs)[rs[k].num] == rs[k].value as real
  {
    ValuesForSingle(rs, k);
    assert Sum([rs[k].value as real]) == rs[k].value as real by {
      assert [rs[k].value as real][..0] == [];
    }
  }

  /** `df.groupby("#")[answers].std()` squared: the sample variance of each
      question, NaN (`None`) for a question with fewer than two answers. */
  function Spreads(rs: seq<Scored>): (sp: map<int, Option<real>>)
    ensures sp.Keys == Nums(rs)
    ensures forall n :: n in sp ==> (sp[n].Some? <==> |ValuesFor(rs, n)| >= 2)
    ensures forall n :: n in sp && sp[n].Some? ==> IsSampleVar(ValuesFor(rs, n), sp[n].value)
  {
    map n | n in Nums(rs) :: SampleVar(ValuesFor(rs, n))
  }

  /** `df.groupby("#")[answers].transform("mean")`: each row gets the mean
      of its own question. */
  function RowAverages(rs: seq<Scored>): (r: seq<real>)
    ensures |r| == |rs|
    ensures forall k :: 0 <= k < |rs| ==> rs[k].num in Averages(rs) && r[k] == Averages(rs)[rs[k].num]
  {
    seq(|rs|, k requires 0 <= k < |rs| => GroupMean(rs, rs[k].num))
  }

  /** Rows of the same question show the same mean. */
  lemma RowAveragesAgree(rs: seq<Scored>, i: nat, j: nat)
    requires i < |rs| && j < |rs| && rs[i].num == rs[j].num
    ensures RowAverages(rs)[i] == RowAverages(rs)[j]
  {
  }

  /** `df[cols].mask(df[cols].duplicated(), "")`: a row's cells are blanked
      (`None`) when an earlier row holds the same values. */
  function Mask<T(==)>(ts: seq<T>): (r: seq<Option<T>>)
    ensures |r| == |ts|
    decreases |ts|
  {
    if |ts| == 0 then []
    else
      var t := ts[|ts| - 1];
      Mask(ts[..|ts| - 1]) + [if t in ts[..|ts| - 1] then None else Some(t)]
  }

  /** A row is blanked exactly when an earlier row equals it; a row that
      survives keeps its values. */
  lemma {:induction false} MaskBlanks<T>(ts: seq<T>)
    ensures forall k :: 0 <= k < |ts| ==>
      (Mask(ts)[k].None? <==> exists j :: 0 <= j < k && ts[j] == ts[k])
    ensures forall k :: 0 <= k < |ts| && Mask(ts)[k].Some? ==> Mask(ts)[k].value == ts[k]
    decreases |ts|
  {
    if |ts| > 0 {
      var init := ts[..|ts| - 1];
      MaskBlanks(init);
      assert Mask(ts) == Mask(init) + [if ts[|ts| - 1] in init then None else Some(ts[|ts| - 1])];
      forall k | 0 <= k < |ts|
        ensures (Mask(ts)[k].None? <==> exists j :: 0 <= j < k && ts[j] == ts[k])
        ensures Mask(ts)[k].Some? ==> Mask(ts)[k].value == ts[k]
      {
        if k < |init| {
          assert Mask(ts)[k] == Mask(init)[k];
          assert forall j :: 0 <= j < k ==> init[j] == ts[j];
        } else if ts[k] in init {
          var j :| 0 <= j < |init| && init[j] == ts[k];
          assert ts[j] == ts[k];
        }
      }
    }
  }

  /** Blanking loses no values: the surviving rows hold every distinct row
      once, the first occurrence of each. */
  lemma MaskKeepsFirst<T>(ts: seq<T>)
    ensures (set k | 0 <= k < |ts| && Mask(ts)[k].Some? :: ts[k]) == set k | 0 <= k < |ts| :: ts[k]
    ensures forall i, j :: 0 <= i < j < |ts| && Mask(ts)[i].Some? && Mask(ts)[j].Some? ==> ts[i] != ts[j]
  {
    MaskCovers(ts);
    MaskSurvivorsDistinct(ts);
  }

  /** Every row's value survives at its first occurrence. */
  lemma MaskCovers<T>(ts: seq<T>)
    ensures (set k | 0 <= k < |ts| && Mask(ts)[k].Some? :: ts[k]) == set k | 0 <= k < |ts| :: ts[k]
  {
    MaskBlanks(ts);
    forall k | 0 <= k < |ts|
      ensures ts[k] in set k' | 0 <= k' < |ts| && Mask(ts)[k'].Some? :: ts[k']
    {
      var first := FirstIndex(ts, k);
      assert Mask(ts)[first].Some?;
    }
  }

  /** No two surviving rows are equal. */
  lemma MaskSurvivorsDistinct<T>(ts: seq<T>)
    ensures forall i, j :: 0 <= i < j < |ts| && Mask(ts)[i].Some? && Mask(ts)[j].Some? ==> ts[i] != ts[j]
  {
    MaskBlanks(ts);
  }

  /** The earliest index holding the value at `k`. */
  function FirstIndex<T(==)>(ts: seq<T>, k: nat): (f: nat)
    requires k < |ts|
    ensures f <= k && ts[f] == ts[k]
    ensures forall j :: 0 <= j < f ==> ts[j] != ts[k]
    decreases k
  {
    if exists j :: 0 <= j < k && ts[j] == ts[k] then
      var j :| 0 <= j < k && ts[j] == ts[k];
      FirstIndex(ts, j)
    else k
  }

  /** Rows that are pairwise different are never blanked. */
  lemma MaskDistinct<T>(ts: seq<T>)
    requires forall i, j :: 0 <= i < j < |ts| ==> ts[i] != ts[j]
    ensures forall k :: 0 <= k < |ts| ==> Mask(ts)[k] == Some(ts[k])
  {
    MaskBlanks(ts);
  }

  /** A worked case: a repeated row is blanked, the first one stays. */
  lemma MaskExample()
    ensures Mask([1, 2, 1]) == [Some(1), Some(2), None]
  {
    assert [1, 2, 1][..2] == [1, 2] && [1, 2][..1] == [1];
  }

  // The sequential script.

  /** The `(#, answer)` columns of the sequential rows. */
  function EntryAnswers(es: seq<Entry>): (r: seq<(int, string)>)
    ensures |r| == |es|
  {
    seq(|es|, k requires 0 <= k < |es| => (es[k].num, es[k].answer))
  }

  /** The `(#, questions, averages)` cells of the sequential rows. */
  function SequentialCells(es: seq<Entry>, rs: seq<Scored>): (r: seq<(int, string, real)>)
    requires |rs| == |es|
    ensures |r| == |es|
  {
    var avg := RowAverages(rs);
    seq(|es|, k requires 0 <= k < |es| => (es[k].num, es[k].question, avg[k]))
  }

  /** The scored rows of a completed sequential run are numbered 1, 2, … in order. */
  lemma SequentialNums(qs: seq<string>, reply: Task -> string)
    requires SequentialRun(qs, reply).Some?
    requires AsInts(EntryAnswers(SequentialRun(qs, reply).value)).Some?
    ensures var rs := AsInts(EntryAnswers(SequentialRun(qs, reply).value)).value;
      forall k :: 0 <= k < |rs| ==> rs[k].num == k + 1
  {
    SequentialRunRows(qs, reply);
  }

  /** With one iteration per question, each question's mean is its single answer. */
  lemma SequentialAverages(qs: seq<string>, reply: Task -> string)
    requires SequentialRun(qs, reply).Some?
    requires AsInts(EntryAnswers(SequentialRun(qs, reply).value)).Some?
    ensures var rs := AsInts(EntryAnswers(SequentialRun(qs, reply).value)).value;
      forall n :: 1 <= n <= |rs| ==> n in Averages(rs) && Averages(rs)[n] == rs[n - 1].value as real
  {
    SequentialNums(qs, reply);
    AveragesOfNumbered(AsInts(EntryAnswers(SequentialRun(qs, reply).value)).value);
  }

  /** Rows numbered 1, 2, … each form their own question. */
  lemma AveragesOfNumbered(rs: seq<Scored>)
    requires forall k :: 0 <= k < |rs| ==> rs[k].num == k + 1
    ensures forall n :: 1 <= n <= |rs| ==> n in Averages(rs) && Averages(rs)[n] == rs[n - 1].value as real
  {
    forall n | 1 <= n <= |rs| ensures n in Averages(rs) && Averages(rs)[n] == rs[n - 1].value as real {
      AverageOfSingle(rs, n - 1);
    }
  }

  /** With one iteration per question no row of the printed table is blanked. */
  lemma SequentialNothingMasked(qs: seq<string>, reply: Task -> string)
    requires SequentialRun(qs, reply).Some?
    requires AsInts(EntryAnswers(SequentialRun(qs, reply).value)).Some?
    ensures var es := SequentialRun(qs, reply).value;
      var rs := AsInts(EntryAnswers(es)).value;
      forall k :: 0 <= k < |es| ==> Mask(SequentialCells(es, rs))[k].Some?
  {
    var es := SequentialRun(qs, reply).value;
    var rs := AsInts(EntryAnswers(es)).value;
    SequentialNums(qs, reply);
    var cells := SequentialCells(es, rs);
    assert forall k :: 0 <= k < |cells| ==> cells[k].0 == k + 1;
    MaskDistinct(cells);
  }
}
