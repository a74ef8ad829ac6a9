/** The rows the evaluation scripts collect, the set of tasks one attempt
    submits, and `sorted(data_list, key=lambda x: (x[0], x[2]))`: Python's
    stable sort on the key (question number, iteration). */
module Records {

  /** One collected row `[#, question, iteration, answer]`. */
  datatype Record = Record(num: int, question: string, iteration: int, answer: string)

  /** One submitted request: question number `num` (from 1), the question
      text and the iteration `iteration` (from 0). */
  datatype Task = Task(num: int, question: string, iteration: int)

  /** Tuple order on `(num, iteration)`. */
  predicate KeyLe(a: Record, b: Record) {
    a.num < b.num || (a.num == b.num && a.iteration <= b.iteration)
  }

  predicate KeyLt(a: Record, b: Record) {
    a.num < b.num || (a.num == b.num && a.iteration < b.iteration)
  }

  predicate SortedByKey(s: seq<Record>) {
    forall i, j :: 0 <= i < j < |s| ==> KeyLe(s[i], s[j])
  }

  /** Sorted with no key repeated. */
  predicate StrictlySortedByKey(s: seq<Record>) {
    forall i, j :: 0 <= i < j < |s| ==> KeyLt(s[i], s[j])
  }

  /** `x` placed after every element whose key is at most its own (the
      step of a stable insertion sort). */
  function Insert(s: seq<Record>, x: Record): (r: seq<Record>)
    requires SortedByKey(s)
    ensures SortedByKey(r)
    ensures multiset(r) == multiset(s) + multiset{x}
    ensures |r| == |s| + 1
    ensures forall k :: 0 <= k < |r| ==> r[k] == x || r[k] in s
    decreases |s|, 1
  {
    if |s| == 0 || KeyLe(s[|s| - 1], x) then
      s + [x]
    else
      var init, y := s[..|s| - 1], s[|s| - 1];
      assert s == init + [y];
      InsertBelow(init, y, x);
      Insert(init, x) + [y]
  }

  /** Every key in `s` is at most `y`'s. */
  predicate AllKeyLe(s: seq<Record>, y: Record) {
    forall k :: 0 <= k < |s| ==> KeyLe(s[k], y)
  }

  /** When `x` goes before `y`, everything inserting `x` into the elements
      before `y` produces has a key at most `y`'s. */
  lemma InsertBelow(init: seq<Record>, y: Record, x: Record)
    requires SortedByKey(init + [y]) && !KeyLe(y, x)
    ensures SortedByKey(init)
    ensures AllKeyLe(Insert(init, x), y)
    decreases |init| + 1, 0
  {
    assert forall m :: 0 <= m < |init| ==> (init + [y])[m] == init[m];
    assert forall m :: 0 <= m < |init| ==> KeyLe(init[m], y) by {
      forall m | 0 <= m < |init| ensures KeyLe(init[m], y) {
        assert (init + [y])[m] == init[m] && (init + [y])[|init|] == y;
      }
    }
    var t := Insert(init, x);
    forall k | 0 <= k < |t| ensures KeyLe(t[k], y) {
      if t[k] != x {
        var m :| 0 <= m < |init| && init[m] == t[k];
      }
    }
  }

  /** Python's `sorted` on the key `(num, iteration)`, as insertion of the
      elements in input order. */
  function Sort(s: seq<Record>): (r: seq<Record>)
    ensures SortedByKey(r)
    ensures multiset(r) == multiset(s)
    ensures |r| == |s|
    decreases |s|
  {
    if |s| == 0 then []
    else
      assert s == s[..|s| - 1] + [s[|s| - 1]];
      Insert(Sort(s[..|s| - 1]), s[|s| - 1])
  }

  /** The elements of `s` whose key is `(n, it)`, in their order in `s`. */
  function Cohort(s: seq<Record>, n: int, it: int): seq<Record>
    decreases |s|
  {
    if |s| == 0 then []
    else
      var x := s[|s| - 1];
      Cohort(s[..|s| - 1], n, it) + (if x.num == n && x.iteration == it then [x] else [])
  }

  lemma {:induction false} InsertCohort(s: seq<Record>, x: Record, n: int, it: int)
    requires SortedByKey(s)
    ensures Cohort(Insert(s, x), n, it) == Cohort(s, n, it) + (if x.num == n && x.iteration == it then [x] else [])
    decreases |s|
  {
    if |s| == 0 || KeyLe(s[|s| - 1], x) {
      CohortSnoc(s, x, n, it);
    } else {
      var init := s[..|s| - 1];
      var y := s[|s| - 1];
      SortedInit(s);
      assert Insert(s, x) == Insert(init, x) + [y];
      InsertCohort(init, x, n, it);
      CohortSnoc(Insert(init, x), y, n, it);
      CohortSnoc(init, y, n, it);
      assert s == init + [y];
      assert !(x.num == n && x.iteration == it && y.num == n && y.iteration == it);
    }
  }

  lemma SortedInit(s: seq<Record>)
    requires |s| > 0 && SortedByKey(s)
    ensures SortedByKey(s[..|s| - 1])
  {
  }

  lemma CohortSnoc(t: seq<Record>, y: Record, n: int, it: int)
    ensures Cohort(t + [y], n, it) == Cohort(t, n, it) + (if y.num == n && y.iteration == it then [y] else [])
  {
    assert (t + [y])[..|t|] == t;
  }

  /** The sort is stable: records with equal keys keep their input order. */
  lemma {:induction false} SortStable(s: seq<Record>, n: int, it: int)
    ensures Cohort(Sort(s), n, it) == Cohort(s, n, it)
    decreases |s|
  {
    if |s| > 0 {
      SortStable(s[..|s| - 1], n, it);
      InsertCohort(Sort(s[..|s| - 1]), s[|s| - 1], n, it);
    }
  }

  /** A sorted sequence with the same elements as a strictly sorted one is
      that sequence. */
  lemma {:induction false} SortedUnique(a: seq<Record>, b: seq<Record>)
    requires SortedByKey(a) && StrictlySortedByKey(b)
    requires multiset(a) == multiset(b)
    ensures a == b
    decreases |a|
  {
    assert |a| == |multiset(a)| == |b|;
    if |a| > 0 {
      SameFirst(a, b);
      DropFirst(a);
      DropFirst(b);
      SortedUnique(a[1..], b[1..]);
      assert a == [a[0]] + a[1..] && b == [b[0]] + b[1..];
    }
  }

  lemma SameFirst(a: seq<Record>, b: seq<Record>)
    requires |a| > 0 && SortedByKey(a) && StrictlySortedByKey(b)
    requires multiset(a) == multiset(b)
    ensures |b| > 0 && a[0] == b[0]
  {
    assert a[0] in multiset(b);
    var k :| 0 <= k < |b| && b[k] == a[0];
    assert b[0] in multiset(a);
    var m :| 0 <= m < |a| && a[m] == b[0];
    assert m == 0 || KeyLe(a[0], a[m]);
  }

  lemma DropFirst(a: seq<Record>)
    requires |a| > 0
    ensures multiset(a[1..]) == multiset(a) - multiset{a[0]}
  {
    assert a == [a[0]] + a[1..];
  }

  /** Sorting any rearrangement of a strictly sorted sequence restores it:
      the completion order of the requests does not matter. */
  lemma SortPermutation(p: seq<Record>, t: seq<Record>)
    requires StrictlySortedByKey(t) && multiset(p) == multiset(t)
    ensures Sort(p) == t
  {
    SortedUnique(Sort(p), t);
  }

  /** The requests for question `num` (text `q`), iterations `0..m-1`. */
  function TaskRow(num: int, q: string, m: nat): (r: seq<Task>)
    ensures |r| == m
  {
    seq(m, j requires 0 <= j < m => Task(num, q, j))
  }

  /** The requests for the first `n` questions of `qs`, question-major. */
  function TasksUpTo(qs: seq<string>, n: nat, m: nat): (r: seq<Task>)
    requires n <= |qs|
    ensures |r| == n * m
  {
    if n == 0 then []
    else
      assert n * m == (n - 1) * m + m;
      TasksUpTo(qs, n - 1, m) + TaskRow(n, qs[n - 1], m)
  }

  /** The requests of one attempt: `for i, q in enumerate(questions, 1): for j in range(m)`. */
  function Tasks(qs: seq<string>, m: nat): (r: seq<Task>)
    ensures |r| == |qs| * m
  {
    TasksUpTo(qs, |qs|, m)
  }

  predicate TaskLt(a: Task, b: Task) {
    a.num < b.num || (a.num == b.num && a.iteration < b.iteration)
  }

  /** Which requests an attempt makes: exactly one per question number
      `1..|qs|` and iteration `0..m-1`, carrying that question's text, in
      increasing `(num, iteration)` order (so none twice). */
  lemma {:induction false} TasksExactly(qs: seq<string>, n: nat, m: nat)
    requires n <= |qs|
    ensures forall t :: t in TasksUpTo(qs, n, m) <==>
      1 <= t.num <= n && 0 <= t.iteration < m && t.question == qs[t.num - 1]
    ensures forall a, b :: 0 <= a < b < |TasksUpTo(qs, n, m)| ==>
      TaskLt(TasksUpTo(qs, n, m)[a], TasksUpTo(qs, n, m)[b])
  {
    if n > 0 {
      TasksExactly(qs, n - 1, m);
      var prev := TasksUpTo(qs, n - 1, m);
      var row := TaskRow(n, qs[n - 1], m);
      var all := prev + row;
      assert all == TasksUpTo(qs, n, m);
      forall t ensures t in all <==> 1 <= t.num <= n && 0 <= t.iteration < m && t.question == qs[t.num - 1] {
        if t.num == n && 0 <= t.iteration < m && t.question == qs[n - 1] {
          assert row[t.iteration] == t;
        }
      }
      forall a, b | 0 <= a < b < |all| ensures TaskLt(all[a], all[b]) {
        if a < |prev| && b >= |prev| {
          assert all[a] in prev;
        }
      }
    }
  }

  /** The record a request yields, with the model's answer. */
  function Answered(t: Task, answer: string): Record {
    Record(t.num, t.question, t.iteration, answer)
  }

  /** Requests in increasing key order give records in strictly increasing
      key order, whatever the answers. */
  lemma AnsweredStrictlySorted(ts: seq<Task>, answers: seq<string>)
    requires |answers| == |ts|
    requires forall a, b :: 0 <= a < b < |ts| ==> TaskLt(ts[a], ts[b])
    ensures StrictlySortedByKey(seq(|ts|, k requires 0 <= k < |ts| => Answered(ts[k], answers[k])))
  {
  }
}
