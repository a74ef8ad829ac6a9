/** The sequential run of the top-level script: every question is asked
    `SequentialIterations` times in turn, and each reply is cut at its
    newlines into an answer (the first line, stripped) and a reason (the
    second line). The model's reply to a request is an input. */
module Sequential {
  import opened Wrappers
  import opened Text
  import opened Records

  /** `NUM_ITR` of the sequential script. */
  const SequentialIterations: nat := 1

  /** One collected row `[#, question, answer, reason]`. */
  datatype Entry = Entry(num: int, question: string, answer: string, reason: string)

  /** There are at least two parts exactly when the separator occurs. */
  lemma SplitHasSeparator(s: string, sep: char)
    ensures |Split(s, sep)| >= 2 <==> sep in s
  {
    var parts := Split(s, sep);
    if |parts| >= 2 {
      assert s == parts[0] + [sep] + Join(parts[1..], sep);
      assert s[|parts[0]|] == sep;
    } else {
      assert s == parts[0];
    }
  }

  /** `res_list = text.split('\n')` followed by `res_list[0].strip()` and
      `res_list[1]`: the answer and the reason, or `None` where the
      indexing raises IndexError (a reply without a newline). */
  function SplitReply(text: string): (r: Option<(string, string)>)
    ensures r.Some? <==> '\n' in text
  {
    var parts := Split(text, '\n');
    SplitHasSeparator(text, '\n');
    if |parts| < 2 then None else Some((Strip(parts[0]), parts[1]))
  }

  /** Joining a part in front of at least one more adds one separator. */
  lemma JoinCons(a: string, ps: seq<string>, sep: char)
    requires |ps| >= 1
    ensures Join([a] + ps, sep) == a + [sep] + Join(ps, sep)
  {
    assert ([a] + ps)[1..] == ps;
  }

  /** A reply made of a first line, a second line and a rest that is
      empty or starts a further line yields the stripped first line and the
      second line verbatim. */
  lemma SplitReplyOf(first: string, second: string, rest: string)
    requires '\n' !in first && '\n' !in second
    requires rest == "" || rest[0] == '\n'
    ensures SplitReply(first + "\n" + second + rest) == Some((Strip(first), second))
  {
    var parts := SplitLines(first, second, rest);
    assert |parts| >= 2 && parts[0] == first && parts[1] == second;
  }

  lemma SplitLines(first: string, second: string, rest: string) returns (parts: seq<string>)
    requires '\n' !in first && '\n' !in second
    requires rest == "" || rest[0] == '\n'
    ensures parts == Split(first + "\n" + second + rest, '\n')
    ensures |parts| >= 2 && parts[0] == first && parts[1] == second
  {
    if rest == "" {
      parts := [first, second];
      JoinCons(first, [second], '\n');
      assert first + "\n" + second + rest == first + ['\n'] + second;
    } else {
      var more := Split(rest[1..], '\n');
      parts := [first, second] + more;
      JoinCons(second, more, '\n');
      JoinCons(first, [second] + more, '\n');
      assert parts == [first] + ([second] + more);
      assert rest == ['\n'] + rest[1..];
      assert first + "\n" + second + rest == first + ['\n'] + (second + ['\n'] + rest[1..]);
    }
    SplitJoin(parts, '\n');
  }

  /** The loop body for one request: its row, or `None` on IndexError. */
  function EntryOf(t: Task, text: string): (r: Option<Entry>)
    ensures r.Some? <==> '\n' in text
  {
    match SplitReply(text)
    case None => None
    case Some(p) => Some(Entry(t.num, t.question, p.0, p.1))
  }

  /** The collection loop over the requests `ts` in order; the first reply
      without a newline aborts the run. */
  function Collect(ts: seq<Task>, reply: Task -> string): (r: Option<seq<Entry>>)
    ensures r.Some? <==> forall k :: 0 <= k < |ts| ==> '\n' in reply(ts[k])
    ensures r.Some? ==> |r.value| == |ts|
    decreases |ts|
  {
    if |ts| == 0 then Some([])
    else
      var rest := Collect(ts[1..], reply);
      assert forall k :: 1 <= k < |ts| ==> ts[k] == ts[1..][k - 1];
      match EntryOf(ts[0], reply(ts[0]))
      case None => None
      case Some(e) => if rest.None? then None else Some([e] + rest.value)
  }

  /** Row `k` of a completed collection belongs to request `k`: its number
      and question, the stripped first line and the second line of its reply. */
  lemma {:induction false} CollectRows(ts: seq<Task>, reply: Task -> string)
    requires Collect(ts, reply).Some?
    ensures forall k :: 0 <= k < |ts| ==>
      var e := Collect(ts, reply).value[k];
      var parts := Split(reply(ts[k]), '\n');
      |parts| >= 2 && e == Entry(ts[k].num, ts[k].question, Strip(parts[0]), parts[1])
    decreases |ts|
  {
    if |ts| > 0 {
      CollectRows(ts[1..], reply);
      SplitHasSeparator(reply(ts[0]), '\n');
      forall k | 0 <= k < |ts|
        ensures var e := Collect(ts, reply).value[k];
          var parts := Split(reply(ts[k]), '\n');
          |parts| >= 2 && e == Entry(ts[k].num, ts[k].question, Strip(parts[0]), parts[1])
      {
        if k > 0 {
          assert ts[k] == ts[1..][k - 1];
          assert Collect(ts, reply).value[k] == Collect(ts[1..], reply).value[k - 1];
        }
      }
    }
  }

  /** With one iteration the requests are one per question, in file order. */
  lemma {:induction false} SingleIterationTasks(qs: seq<string>, n: nat)
    requires n <= |qs|
    ensures forall k :: 0 <= k < n ==> TasksUpTo(qs, n, 1)[k] == Task(k + 1, qs[k], 0)
  {
    if n > 0 {
      SingleIterationTasks(qs, n - 1);
      assert TaskRow(n, qs[n - 1], 1)[0] == Task(n, qs[n - 1], 0);
    }
  }

  /** `main()` of the sequential script after the questions are read. */
  function SequentialRun(qs: seq<string>, reply: Task -> string): (r: Option<seq<Entry>>)
    ensures r.Some? ==> |r.value| == |qs| * SequentialIterations
  {
    Collect(Tasks(qs, SequentialIterations), reply)
  }

  /** What a completed sequential run holds: row `k` answers question
      `k + 1` with the text `qs[k]`, and the run fails exactly when some
      reply has no newline. */
  lemma SequentialRunRows(qs: seq<string>, reply: Task -> string)
    ensures SequentialRun(qs, reply).Some? <==>
      forall k :: 0 <= k < |qs| ==> '\n' in reply(Task(k + 1, qs[k], 0))
    ensures SequentialRun(qs, reply).Some? ==>
      forall k :: 0 <= k < |qs| ==>
        SequentialRun(qs, reply).value[k].num == k + 1 &&
        SequentialRun(qs, reply).value[k].question == qs[k]
  {
    var ts := Tasks(qs, SequentialIterations);
    SingleIterationTasks(qs, |qs|);
    assert forall k :: 0 <= k < |qs| ==> ts[k] == Task(k + 1, qs[k], 0);
    if SequentialRun(qs, reply).Some? {
      CollectRows(ts, reply);
    }
  }

  /** A well-formed reply gives the row the script intends: the stripped
      rating line as the answer and the next line as the reason. */
  lemma SequentialReplyRow(t: Task, rating: string, reason: string, rest: string)
    requires '\n' !in rating && '\n' !in reason
    requires rest == "" || rest[0] == '\n'
    ensures EntryOf(t, rating + "\n" + reason + rest) == Some(Entry(t.num, t.question, Strip(rating), reason))
  {
    SplitReplyOf(rating, reason, rest);
  }
}
