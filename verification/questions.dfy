/** Reading the questionnaire: the three scripts iterate over the lines of a
    Markdown file and keep the capture group of every line that matches a
    line pattern. The file is given as its text; Python's line iterator is
    `FileLines`. */
module Questions {
  import opened Wrappers
  import opened Text

  /** Concatenation of a sequence of strings. */
  function Concat(ls: seq<string>): string {
    if |ls| == 0 then "" else ls[0] + Concat(ls[1..])
  }

  /** The lines `for line in file` yields: every line keeps its `\n`, only
      the last one may lack it (see `FileLinesShape`); together they are the
      file. `c` is the text after text-mode newline translation, so `\r\n`
      and `\r` have already become `\n`. */
  function FileLines(c: string): (ls: seq<string>)
    ensures Concat(ls) == c
    decreases |c|
  {
    if c == "" then []
    else if '\n' !in c then [c]
    else
      var i := IndexOf(c, '\n');
      var rest := FileLines(c[i + 1..]);
      assert ([c[..i + 1]] + rest)[1..] == rest;
      assert c == c[..i + 1] + c[i + 1..];
      [c[..i + 1]] + rest
  }

  /** A file line is one `\n`-terminated line: non-empty, a newline only at
      its end, and only the last line of the file may lack it. */
  predicate LineShaped(l: string, last: bool) {
    && |l| > 0 && '\n' !in l[..|l| - 1]
    && (!last ==> l[|l| - 1] == '\n')
  }

  lemma {:induction false} FileLinesShape(c: string)
    ensures forall k :: 0 <= k < |FileLines(c)| ==> LineShaped(FileLines(c)[k], k == |FileLines(c)| - 1)
    decreases |c|
  {
    if c != "" && '\n' in c {
      var i := IndexOf(c, '\n');
      FileLinesShape(c[i + 1..]);
      assert c[..i + 1][..i] == c[..i];
    }
  }

  /** A line that ends in a newline is split off on its own. */
  lemma FileLinesCons(line: string, c: string)
    requires |line| > 0 && line[|line| - 1] == '\n' && '\n' !in line[..|line| - 1]
    ensures FileLines(line + c) == [line] + FileLines(c)
  {
    var s := line + c;
    assert s[|line| - 1] == '\n';
    assert s[..|line| - 1] == line[..|line| - 1];
    assert IndexOf(s, '\n') == |line| - 1;
    assert s[..|line|] == line;
    assert s[|line|..] == c;
  }

  /** Length of the leading run of ASCII digits (`\d+` matched greedily). */
  function DigitRun(s: string): (n: nat)
    ensures n <= |s| && AllDigits(s[..n]) && (n < |s| ==> !IsDigit(s[n]))
    decreases |s|
  {
    if |s| > 0 && IsDigit(s[0]) then
      var n := DigitRun(s[1..]);
      assert s[..n + 1] == [s[0]] + s[1..][..n];
      n + 1
    else 0
  }

  lemma {:induction false} DigitRunOf(d: string, t: string)
    requires AllDigits(d) && (|t| > 0 ==> !IsDigit(t[0]))
    ensures DigitRun(d + t) == |d|
    decreases |d|
  {
    if |d| > 0 {
      assert (d + t)[1..] == d[1..] + t;
      DigitRunOf(d[1..], t);
    }
  }

  /** The three line patterns in use. `Numbered(false)` is `^\d+\. (.+)$`,
      `Numbered(true)` is `^\d+\. (.*)$`, `Dashed` is `^- (.+)$`. */
  datatype Pattern = Numbered(allowEmpty: bool) | Dashed

  /** The pattern of `evaluate_CES` in the package script. */
  const PackagePattern: Pattern := Numbered(false)
  /** The pattern of the retrying batch script under resources. */
  const BatchPattern: Pattern := Numbered(true)
  /** The pattern of the sequential top-level script. */
  const SequentialPattern: Pattern := Dashed

  predicate AllowsEmpty(p: Pattern) {
    p.Numbered? && p.allowEmpty
  }

  /** Where the capture starts in `b`, if the fixed prefix of the pattern matches. */
  function CaptureStart(p: Pattern, b: string): Option<nat> {
    match p
    case Numbered(_) =>
      var n := DigitRun(b);
      if n >= 1 && n + 2 <= |b| && b[n] == '.' && b[n + 1] == ' ' then Some(n + 2) else None
    case Dashed =>
      if |b| >= 2 && b[0] == '-' && b[1] == ' ' then Some(2) else None
  }

  /** `re.match(pattern, line)` followed by `group(1).rstrip('\n')`: the
      captured question, or `None` when the line does not match. The `.`
      of the capture does not match a newline and `$` may sit before one
      final newline, so the capture never holds a newline and the
      `rstrip` never changes it. */
  function MatchQuestion(p: Pattern, line: string): (r: Option<string>)
    ensures r.Some? ==> '\n' !in r.value && (|r.value| > 0 || AllowsEmpty(p))
  {
    var b := DropFinalNewline(line);
    match CaptureStart(p, b)
    case None => None
    case Some(k) =>
      var rest := b[k..];
      if '\n' in rest || (|rest| == 0 && !AllowsEmpty(p)) then None else Some(rest)
  }

  /** The prefix a line must start with: `d. ` for a numbered pattern, `- ` for the dashed one. */
  function Lead(p: Pattern, d: string): string {
    if p.Numbered? then d + ". " else "- "
  }

  /** Reference description of a matching line: the lead, the question,
      at most one final newline. */
  predicate QuestionLine(p: Pattern, line: string, d: string, q: string) {
    && (p.Numbered? ==> |d| >= 1 && AllDigits(d))
    && '\n' !in q && (|q| > 0 || AllowsEmpty(p))
    && (line == Lead(p, d) + q || line == Lead(p, d) + q + "\n")
  }

  /** Every line of the reference shape matches and captures its question. */
  lemma MatchQuestionComplete(p: Pattern, line: string, d: string, q: string)
    requires QuestionLine(p, line, d, q)
    ensures MatchQuestion(p, line) == Some(q)
  {
    var b := Lead(p, d) + q;
    assert b[|b| - 1] != '\n' by {
      if |q| > 0 { assert b[|b| - 1] == q[|q| - 1]; }
    }
    DropShapedNewline(line, b);
    LeadCapture(p, d, q);
  }

  /** Removing the optional final newline of a line without any other
      newline at its end gives back the line's text. */
  lemma DropShapedNewline(line: string, b: string)
    requires |b| == 0 || b[|b| - 1] != '\n'
    requires line == b || line == b + "\n"
    ensures DropFinalNewline(line) == b
  {
    if line == b + "\n" {
      assert line[..|line| - 1] == b;
    }
  }

  /** The capture of a lead followed by a question starts right after the lead. */
  lemma LeadCapture(p: Pattern, d: string, q: string)
    requires p.Numbered? ==> |d| >= 1 && AllDigits(d)
    ensures CaptureStart(p, Lead(p, d) + q) == Some(|Lead(p, d)|)
    ensures (Lead(p, d) + q)[|Lead(p, d)|..] == q
  {
    var b := Lead(p, d) + q;
    if p.Numbered? {
      assert b == d + (". " + q);
      DigitRunOf(d, ". " + q);
      assert b[|d|] == '.' && b[|d| + 1] == ' ';
    }
  }

  /** Every match comes from a line of the reference shape. */
  lemma MatchQuestionSound(p: Pattern, line: string)
    requires MatchQuestion(p, line).Some?
    ensures exists d :: QuestionLine(p, line, d, MatchQuestion(p, line).value)
  {
    var q := MatchQuestion(p, line).value;
    var b := DropFinalNewline(line);
    var k := CaptureStart(p, b).value;
    var d := b[..k - 2];
    assert b == b[..k] + q;
    if p.Numbered? {
      assert b[..k] == d + ". ";
    } else {
      assert b[..k] == "- ";
    }
    if line != b {
      assert line == b + "\n";
    }
    assert QuestionLine(p, line, d, q);
  }

  /** `.+` accepts what `.*` accepts except the empty question. */
  lemma NonEmptyPatternIsNarrower(line: string)
    ensures MatchQuestion(Numbered(false), line).Some? ==>
      MatchQuestion(Numbered(true), line) == MatchQuestion(Numbered(false), line)
    ensures MatchQuestion(Numbered(true), line).Some? && MatchQuestion(Numbered(true), line).value != "" ==>
      MatchQuestion(Numbered(false), line) == MatchQuestion(Numbered(true), line)
    ensures MatchQuestion(Numbered(true), line) == Some("") ==> MatchQuestion(Numbered(false), line).None?
  {
  }

  /** A numbered line with nothing after `. ` counts as a question only
      under `.*`. */
  lemma EmptyQuestionExample()
    ensures MatchQuestion(Numbered(true), "3. \n") == Some("")
    ensures MatchQuestion(Numbered(false), "3. \n") == None
  {
    assert DropFinalNewline("3. \n") == "3. ";
    DigitRunOf("3", ". ");
    assert "3" + ". " == "3. ";
  }

  /** The capture of every matching line, in line order; other lines are dropped. */
  function Extract(p: Pattern, lines: seq<string>): (qs: seq<string>)
    ensures |qs| <= |lines|
    ensures forall k :: 0 <= k < |qs| ==> '\n' !in qs[k]
  {
    if |lines| == 0 then []
    else
      var rest := Extract(p, lines[1..]);
      match MatchQuestion(p, lines[0])
      case Some(q) => [q] + rest
      case None => rest
  }

  /** Extraction works line by line: the questions of two consecutive
      blocks of lines are those of the first followed by those of the second. */
  lemma {:induction false} ExtractAppend(p: Pattern, a: seq<string>, b: seq<string>)
    ensures Extract(p, a + b) == Extract(p, a) + Extract(p, b)
  {
    if |a| > 0 {
      assert (a + b)[0] == a[0];
      assert (a + b)[1..] == a[1..] + b;
      ExtractAppend(p, a[1..], b);
      match MatchQuestion(p, a[0])
      case Some(q) =>
        assert Extract(p, a + b) == [q] + Extract(p, a[1..] + b);
        assert Extract(p, a) == [q] + Extract(p, a[1..]);
      case None =>
    } else {
      assert a + b == b;
    }
  }

  /** `get_questions` / `extract_question`: the questions of a file. */
  function QuestionsOf(p: Pattern, content: string): (qs: seq<string>)
    ensures |qs| <= |FileLines(content)|
  {
    Extract(p, FileLines(content))
  }

  /** Line `n` of a questionnaire written for pattern `p`. */
  function RenderLine(p: Pattern, n: nat, q: string): string {
    Lead(p, NatToString(n)) + q + "\n"
  }

  /** A questionnaire file: one line per question, numbered from `first`
      (`k. question`, or `- question` for the dashed pattern). */
  function Render(p: Pattern, qs: seq<string>, first: nat): string
    decreases |qs|
  {
    if |qs| == 0 then "" else RenderLine(p, first, qs[0]) + Render(p, qs[1..], first + 1)
  }

  predicate Askable(p: Pattern, qs: seq<string>) {
    forall k :: 0 <= k < |qs| ==> '\n' !in qs[k] && (|qs[k]| > 0 || AllowsEmpty(p))
  }

  /** A rendered line is one file line and captures its question. */
  lemma RenderedLine(p: Pattern, n: nat, q: string)
    requires '\n' !in q && (|q| > 0 || AllowsEmpty(p))
    ensures LineShaped(RenderLine(p, n, q), false)
    ensures MatchQuestion(p, RenderLine(p, n, q)) == Some(q)
  {
    var d := NatToString(n);
    var line := RenderLine(p, n, q);
    var lead := Lead(p, d);
    NatToStringDigits(n);
    assert QuestionLine(p, line, d, q);
    MatchQuestionComplete(p, line, d, q);
    assert line[..|line| - 1] == lead + q;
    forall i | 0 <= i < |line| - 1 ensures line[i] != '\n' {
      if i < |lead| {
        assert line[i] == lead[i];
        if p.Numbered? && i < |d| { assert lead[i] == d[i]; }
      } else {
        assert line[i] == q[i - |lead|];
      }
    }
  }

  /** Reading back a rendered questionnaire gives its questions. */
  lemma {:induction false} RenderRoundTrip(p: Pattern, qs: seq<string>, first: nat)
    requires Askable(p, qs)
    ensures QuestionsOf(p, Render(p, qs, first)) == qs
    decreases |qs|
  {
    if |qs| > 0 {
      RenderSplit(p, qs, first);
      AskableTail(p, qs);
      RenderRoundTrip(p, qs[1..], first + 1);
      assert qs == [qs[0]] + qs[1..];
    }
  }

  /** The first rendered line is a file line of its own and yields the
      first question. */
  lemma RenderSplit(p: Pattern, qs: seq<string>, first: nat)
    requires |qs| > 0 && Askable(p, qs)
    ensures QuestionsOf(p, Render(p, qs, first)) == [qs[0]] + QuestionsOf(p, Render(p, qs[1..], first + 1))
  {
    var line := RenderLine(p, first, qs[0]);
    var rest := Render(p, qs[1..], first + 1);
    var ls := [line] + FileLines(rest);
    RenderedLine(p, first, qs[0]);
    FileLinesCons(line, rest);
    assert ls[0] == line && ls[1..] == FileLines(rest);
  }

  lemma AskableTail(p: Pattern, qs: seq<string>)
    requires |qs| > 0 && Askable(p, qs)
    ensures Askable(p, qs[1..])
  {
    forall k | 0 <= k < |qs[1..]| ensures '\n' !in qs[1..][k] && (|qs[1..][k]| > 0 || AllowsEmpty(p)) {
      assert qs[1..][k] == qs[k + 1];
    }
  }
}
