/** The survey recorder (`SurveyProcessor`): parses one 17-line answer
    sheet of the form `k) d` and turns it into 17 CSV rows that share a
    fresh iteration number. File reading and writing are replaced by the
    list of iteration numbers already stored. */
module SurveyProcessor {
  import opened Wrappers
  import opened Text

  /** Number of statements on one answer sheet. */
  const QuestionCount := 17

  /** The three ValueErrors `parse_response` can raise. */
  datatype ParseError =
    | WrongLineCount(got: nat)   // "Expected 17 responses, got n"
    | InvalidFormat(line: nat)   // "Invalid format in line k ..."
    | OutOfRange(line: nat)      // "Response in line k must be between 1 and 5"

  /** The text of a well-formed line `k` whose gap is `ws` and whose answer is `v`. */
  function LineText(k: nat, ws: string, v: nat): string
    requires v < 10
  {
    NatToString(k) + ")" + ws + [DigitChar(v)]
  }

  /** The tail `\s*([1-5])` of the pattern: whitespace, then one digit
      1..5 that ends the text; the value of that digit. */
  function GapThenDigit(s: string): Option<int>
    decreases |s|
  {
    if |s| == 0 then None
    else if |s| == 1 then (if '1' <= s[0] <= '5' then Some(DigitValue(s[0]) as int) else None)
    else if IsSpace(s[0]) then GapThenDigit(s[1..])
    else None
  }

  lemma {:induction false} GapThenDigitSound(s: string)
    requires GapThenDigit(s).Some?
    ensures 1 <= GapThenDigit(s).value <= 5 && |s| >= 1
    ensures AllSpace(s[..|s| - 1]) && s[|s| - 1] == DigitChar(GapThenDigit(s).value)
    decreases |s|
  {
    if |s| > 1 {
      GapThenDigitSound(s[1..]);
      assert s[..|s| - 1] == [s[0]] + s[1..][..|s| - 2];
    }
  }

  lemma {:induction false} GapThenDigitComplete(ws: string, v: nat)
    requires AllSpace(ws) && 1 <= v <= 5
    ensures GapThenDigit(ws + [DigitChar(v)]) == Some(v)
    decreases |ws|
  {
    if |ws| > 0 {
      assert (ws + [DigitChar(v)])[1..] == ws[1..] + [DigitChar(v)];
      GapThenDigitComplete(ws[1..], v);
    }
  }

  /** Matching `p` literally, then `)`, then the tail: the captured value. */
  function MatchAfter(p: string, b: string): Option<int>
    decreases |p|
  {
    if |p| == 0 then (if |b| > 0 && b[0] == ')' then GapThenDigit(b[1..]) else None)
    else if |b| > 0 && b[0] == p[0] then MatchAfter(p[1..], b[1..])
    else None
  }

  lemma {:induction false} MatchAfterSound(p: string, b: string)
    requires MatchAfter(p, b).Some?
    ensures 1 <= MatchAfter(p, b).value <= 5
    ensures exists ws :: AllSpace(ws) && b == p + ")" + ws + [DigitChar(MatchAfter(p, b).value)]
    decreases |p|
  {
    if |p| == 0 {
      var rest := b[1..];
      GapThenDigitSound(rest);
      var ws := rest[..|rest| - 1];
      assert b == p + ")" + ws + [rest[|rest| - 1]];
    } else {
      MatchAfterSound(p[1..], b[1..]);
      var ws :| AllSpace(ws) && b[1..] == p[1..] + ")" + ws + [DigitChar(MatchAfter(p, b).value)];
      assert b == [b[0]] + b[1..];
      assert b == p + ")" + ws + [DigitChar(MatchAfter(p, b).value)];
    }
  }

  lemma {:induction false} MatchAfterComplete(p: string, ws: string, v: nat)
    requires AllSpace(ws) && 1 <= v <= 5
    ensures MatchAfter(p, p + ")" + ws + [DigitChar(v)]) == Some(v)
    decreases |p|
  {
    var b := p + ")" + ws + [DigitChar(v)];
    if |p| == 0 {
      assert b[1..] == ws + [DigitChar(v)];
      GapThenDigitComplete(ws, v);
    } else {
      assert b[1..] == p[1..] + ")" + ws + [DigitChar(v)];
      MatchAfterComplete(p[1..], ws, v);
    }
  }

  /** `re.match(rf"^{k}\)\s*([1-5])$", line)`: the integer value of the
      captured digit, or `None` when the line does not match. */
  function MatchLine(k: nat, line: string): Option<int> {
    MatchAfter(NatToString(k), DropFinalNewline(line))
  }

  /** A match always captures a digit 1..5. */
  lemma MatchLineInRange(k: nat, line: string)
    requires MatchLine(k, line).Some?
    ensures 1 <= MatchLine(k, line).value <= 5
  {
    MatchAfterSound(NatToString(k), DropFinalNewline(line));
  }

  /** A match always captures a digit 1..5, and the matched text is
      exactly `k)`, some whitespace, that digit (plus at most a final newline). */
  lemma MatchLineSound(k: nat, line: string)
    requires MatchLine(k, line).Some?
    ensures 1 <= MatchLine(k, line).value <= 5
    ensures exists ws :: AllSpace(ws) && DropFinalNewline(line) == LineText(k, ws, MatchLine(k, line).value)
  {
    MatchAfterSound(NatToString(k), DropFinalNewline(line));
  }

  /** Every line of the accepted shape matches, with or without a final newline. */
  lemma MatchLineComplete(k: nat, ws: string, v: nat)
    requires AllSpace(ws) && 1 <= v <= 5
    ensures MatchLine(k, LineText(k, ws, v)) == Some(v)
    ensures MatchLine(k, LineText(k, ws, v) + "\n") == Some(v)
  {
    var line := LineText(k, ws, v);
    MatchAfterComplete(NatToString(k), ws, v);
    assert DropFinalNewline(line) == line;
    assert (line + "\n")[..|line + "\n"| - 1] == line;
  }

  /** The lines `parse_response` inspects: the outer-stripped text split on
      newlines, each line stripped. */
  function SheetLines(text: string): (lines: seq<string>)
    ensures |lines| == |Split(Strip(text), '\n')|
  {
    var parts := Split(Strip(text), '\n');
    seq(|parts|, i requires 0 <= i < |parts| => Strip(parts[i]))
  }

  /** The loop of `parse_response` over the first `n` lines; line index
      `j` holds line number `j + 1`, and the first bad line raises. */
  function ParseUpTo(lines: seq<string>, n: nat): (r: Result<seq<int>, ParseError>)
    requires n <= |lines|
    ensures r.Success? ==> |r.value| == n
    ensures r.Success? ==> forall j :: 0 <= j < n ==> MatchLine(j + 1, lines[j]) == Some(r.value[j])
    ensures r.Success? ==> forall j :: 0 <= j < n ==> 1 <= r.value[j] <= 5
    ensures r.Success? <==> forall j :: 0 <= j < n ==> MatchLine(j + 1, lines[j]).Some?
    ensures r.Failure? ==> r.error.InvalidFormat?
    ensures r.Failure? ==> 1 <= r.error.line <= n && MatchLine(r.error.line, lines[r.error.line - 1]).None?
    ensures r.Failure? ==> forall j :: 0 <= j < r.error.line - 1 ==> MatchLine(j + 1, lines[j]).Some?
  {
    if n == 0 then Success([])
    else
      var prev := ParseUpTo(lines, n - 1);
      if prev.Failure? then prev
      else
        match MatchLine(n, lines[n - 1])
        case None => Failure(InvalidFormat(n))
        case Some(v) =>
          MatchLineInRange(n, lines[n - 1]);
          if !(1 <= v <= 5) then Failure(OutOfRange(n))
          else Success(prev.value + [v])
  }

  /** `parse_response`. */
  function ParseResponse(text: string): (r: Result<seq<int>, ParseError>)
    ensures r.Success? ==> |r.value| == QuestionCount == |SheetLines(text)|
    ensures r.Success? ==> forall i :: 0 <= i < |r.value| ==> 1 <= r.value[i] <= 5
    ensures r.Success? ==> forall i :: 0 <= i < |r.value| ==> MatchLine(i + 1, SheetLines(text)[i]) == Some(r.value[i])
    ensures (r.Failure? && r.error.WrongLineCount?) <==> |SheetLines(text)| != QuestionCount
    ensures r.Failure? && r.error.WrongLineCount? ==> r.error.got == |SheetLines(text)|
    ensures r.Failure? && r.error.InvalidFormat? ==>
      && |SheetLines(text)| == QuestionCount
      && 1 <= r.error.line <= QuestionCount
      && MatchLine(r.error.line, SheetLines(text)[r.error.line - 1]).None?
      && forall i :: 0 <= i < r.error.line - 1 ==> MatchLine(i + 1, SheetLines(text)[i]).Some?
    ensures !(r.Failure? && r.error.OutOfRange?)
  {
    var lines := SheetLines(text);
    if |lines| != QuestionCount then Failure(WrongLineCount(|lines|))
    else
      ParseUpTo(lines, |lines|)
  }

  /** Reference definition of an acceptable answer sheet. */
  predicate WellFormedSheet(text: string) {
    var lines := SheetLines(text);
    |lines| == QuestionCount && forall i :: 0 <= i < |lines| ==> MatchLine(i + 1, lines[i]).Some?
  }

  /** `parse_response` succeeds exactly on well-formed sheets. */
  lemma ParseAcceptsExactlyWellFormed(text: string)
    ensures ParseResponse(text).Success? <==> WellFormedSheet(text)
  {
    var lines := SheetLines(text);
    if |lines| == QuestionCount {
      assert ParseResponse(text) == ParseUpTo(lines, |lines|);
    }
  }

  /** The sheet a respondent types for the answers `vs`, one `k) d` line each. */
  function RenderSheet(vs: seq<int>): string
    requires forall i :: 0 <= i < |vs| ==> 1 <= vs[i] <= 5
  {
    Join(RenderLines(vs), '\n')
  }

  function RenderLines(vs: seq<int>): (lines: seq<string>)
    requires forall i :: 0 <= i < |vs| ==> 1 <= vs[i] <= 5
    ensures |lines| == |vs|
  {
    seq(|vs|, i requires 0 <= i < |vs| => LineText(i + 1, " ", vs[i]))
  }

  lemma RenderedLineShape(k: nat, v: nat)
    requires 1 <= v <= 5
    ensures Trimmed(LineText(k, " ", v)) && '\n' !in LineText(k, " ", v)
    ensures LineText(k, " ", v)[0] == NatToString(k)[0]
  {
    var d := NatToString(k);
    var l := LineText(k, " ", v);
    NatToStringDigits(k);
    assert l[|l| - 1] == DigitChar(v);
    forall i | 0 <= i < |l| ensures l[i] != '\n' {
      if i < |d| {
        assert l[i] == d[i] && IsDigit(d[i]);
      } else if i == |d| {
        assert l[i] == ')';
      } else if i == |d| + 1 {
        assert l[i] == ' ';
      } else {
        assert l[i] == DigitChar(v);
      }
    }
  }

  /** Round trip: a rendered sheet of 17 answers parses back to those answers,
      also with the trailing newline the interactive loop adds. */
  lemma ParseRenderRoundTrip(vs: seq<int>)
    requires |vs| == QuestionCount
    requires forall i :: 0 <= i < |vs| ==> 1 <= vs[i] <= 5
    ensures ParseResponse(RenderSheet(vs)) == Success(vs)
    ensures ParseResponse(RenderSheet(vs) + "\n") == Success(vs)
  {
    SheetLinesOfRender(vs);
    RenderedLinesMatch(vs);
    ParseSuccessValues(RenderLines(vs), vs);
  }

  lemma RenderedLinesMatch(vs: seq<int>)
    requires forall i :: 0 <= i < |vs| ==> 1 <= vs[i] <= 5
    ensures forall i :: 0 <= i < |vs| ==> MatchLine(i + 1, RenderLines(vs)[i]) == Some(vs[i])
  {
    forall i | 0 <= i < |vs| ensures MatchLine(i + 1, RenderLines(vs)[i]) == Some(vs[i]) {
      MatchLineComplete(i + 1, " ", vs[i]);
    }
  }

  /** The lines `parse_response` sees in a rendered sheet are the rendered lines. */
  lemma SheetLinesOfRender(vs: seq<int>)
    requires |vs| >= 1
    requires forall i :: 0 <= i < |vs| ==> 1 <= vs[i] <= 5
    ensures SheetLines(RenderSheet(vs)) == RenderLines(vs)
    ensures SheetLines(RenderSheet(vs) + "\n") == RenderLines(vs)
  {
    var lines := RenderLines(vs);
    var text := RenderSheet(vs);
    forall i | 0 <= i < |lines| ensures Trimmed(lines[i]) && '\n' !in lines[i] {
      RenderedLineShape(i + 1, vs[i]);
    }
    SplitJoin(lines, '\n');
    RenderedSheetTrimmed(vs);
    TrimmedSheetLines(text, lines);
    StripNewline(text);
    assert SheetLines(text + "\n") == SheetLines(text);
  }

  /** A trimmed text whose lines are trimmed is read line for line. */
  lemma TrimmedSheetLines(text: string, lines: seq<string>)
    requires Trimmed(text) && Split(text, '\n') == lines
    requires forall i :: 0 <= i < |lines| ==> Trimmed(lines[i])
    ensures SheetLines(text) == lines
  {
    StripTrimmed(text);
    forall i | 0 <= i < |lines| ensures Strip(lines[i]) == lines[i] {
      StripTrimmed(lines[i]);
    }
  }

  lemma StripNewline(text: string)
    requires Trimmed(text)
    ensures Strip(text + "\n") == Strip(text)
  {
    StripTrimmed(text);
    StripPadded("", text, "\n");
    assert "" + text + "\n" == text + "\n";
  }

  lemma RenderedSheetTrimmed(vs: seq<int>)
    requires |vs| >= 1
    requires forall i :: 0 <= i < |vs| ==> 1 <= vs[i] <= 5
    ensures Trimmed(RenderSheet(vs))
  {
    var lines := RenderLines(vs);
    var text := RenderSheet(vs);
    RenderedLineShape(1, vs[0]);
    RenderedLineShape(|vs|, vs[|vs| - 1]);
    FirstOfJoin(lines, '\n');
    LastOfJoin(lines, '\n');
  }

  lemma FirstOfJoin(parts: seq<string>, sep: char)
    requires |parts| >= 1 && |parts[0]| >= 1
    ensures |Join(parts, sep)| >= 1 && Join(parts, sep)[0] == parts[0][0]
  {
  }

  lemma {:induction false} LastOfJoin(parts: seq<string>, sep: char)
    requires |parts| >= 1 && |parts[|parts| - 1]| >= 1
    ensures |Join(parts, sep)| >= 1
    ensures Join(parts, sep)[|Join(parts, sep)| - 1] == parts[|parts| - 1][|parts[|parts| - 1]| - 1]
  {
    if |parts| > 1 {
      LastOfJoin(parts[1..], sep);
    }
  }

  lemma ParseSuccessValues(lines: seq<string>, vs: seq<int>)
    requires |lines| == |vs|
    requires forall i :: 0 <= i < |lines| ==> MatchLine(i + 1, lines[i]) == Some(vs[i])
    ensures ParseUpTo(lines, |lines|) == Success(vs)
  {
    var r := ParseUpTo(lines, |lines|);
    assert r.Success?;
    assert r.value == vs;
  }

  /** What `_get_last_iteration` finds on disk: no file, a file that cannot
      be read as integers, or the Iteration column of the stored rows. */
  datatype StoredFile = Missing | Unreadable | Stored(iterations: seq<int>)

  function MaxOf(xs: seq<int>): (m: int)
    requires |xs| > 0
    ensures m in xs
    ensures forall i :: 0 <= i < |xs| ==> xs[i] <= m
  {
    if |xs| == 1 then xs[0]
    else
      var m := MaxOf(xs[1..]);
      assert forall i :: 1 <= i < |xs| ==> xs[i] == xs[1..][i - 1];
      if xs[0] >= m then xs[0] else m
  }

  /** `_get_last_iteration`: -1 when nothing is stored, else the largest
      stored iteration. */
  function LastIteration(f: StoredFile): (r: int)
    ensures f.Stored? && |f.iterations| > 0 ==> r in f.iterations && forall i :: 0 <= i < |f.iterations| ==> f.iterations[i] <= r
    ensures !(f.Stored? && |f.iterations| > 0) ==> r == -1
  {
    match f
    case Missing => -1
    case Unreadable => -1
    case Stored(xs) => if |xs| == 0 then -1 else MaxOf(xs)
  }

  datatype Processor = Processor(currentIteration: int)

  /** One CSV row: question number `#`, `Iteration`, `Response`. */
  datatype Row = Row(num: int, iteration: int, response: int)

  /** The constructor: the counter starts at the last stored iteration. */
  function Open(f: StoredFile): Processor {
    Processor(LastIteration(f))
  }

  /** `add_response`: the new processor state and the rows appended, or the
      parse error re-raised with the counter untouched. */
  function AddResponse(p: Processor, text: string): (r: (Processor, Result<seq<Row>, ParseError>))
    ensures r.1.Failure? <==> ParseResponse(text).Failure?
    ensures r.1.Failure? ==> r.0 == p && r.1.error == ParseResponse(text).error
    ensures r.1.Success? ==> r.0.currentIteration == p.currentIteration + 1
    ensures r.1.Success? ==> |r.1.value| == QuestionCount
    ensures r.1.Success? ==> forall k :: 0 <= k < |r.1.value| ==>
      r.1.value[k] == Row(k + 1, p.currentIteration + 1, ParseResponse(text).value[k])
  {
    match ParseResponse(text)
    case Failure(e) => (p, Failure(e))
    case Success(vs) =>
      var it := p.currentIteration + 1;
      (Processor(it), Success(seq(|vs|, k requires 0 <= k < |vs| => Row(k + 1, it, vs[k]))))
  }

  function Iterations(rows: seq<Row>): (its: seq<int>)
    ensures |its| == |rows|
  {
    seq(|rows|, k requires 0 <= k < |rows| => rows[k].iteration)
  }

  /** The first sheet recorded into a fresh file gets iteration 0, and every
      later sheet gets an iteration above all stored ones; reopening the
      file after the append resumes from exactly that iteration. */
  lemma FreshIteration(xs: seq<int>, text: string)
    requires ParseResponse(text).Success?
    ensures AddResponse(Open(Missing), text).0.currentIteration == 0
    ensures forall i :: 0 <= i < |xs| ==> xs[i] < AddResponse(Open(Stored(xs)), text).0.currentIteration
    ensures
      var r := AddResponse(Open(Stored(xs)), text);
      Open(Stored(xs + Iterations(r.1.value))) == r.0
  {
    var r := AddResponse(Open(Stored(xs)), text);
    var ys := xs + Iterations(r.1.value);
    var it := r.0.currentIteration;
    assert ys[|xs|] == it;
    assert forall i :: 0 <= i < |ys| ==> ys[i] <= it by {
      forall i | 0 <= i < |ys| ensures ys[i] <= it {
        if i >= |xs| {
          assert ys[i] == r.1.value[i - |xs|].iteration;
        }
      }
    }
    assert LastIteration(Stored(ys)) == it;
  }
}
