/**
 * parse_quiz (app.py:108-125): reads the completion text as windows of six
 * lines (a question line, four option lines, a separator line) and builds
 * one record per window until `num_questions` records exist.
 *
 * The source reads `lines[i+1]` .. `lines[i+4]` without a bounds check, so
 * a window that starts fewer than five lines before the end raises
 * IndexError. The model returns that as `Failure(IndexError(..))`, and
 * ParseQuizOutcome says exactly which inputs reach it.
 */
module QuizParser {
  import opened Outcomes
  import opened PyStr
  import opened Decimal

  datatype QuizQuestion = QuizQuestion(question: string, options: seq<string>)

  /** The IndexError parse_quiz raises; `index` is the first list index it reads out of range. */
  datatype QuizFault = IndexError(index: nat)

  /** Lines per question: the question, four options, one separator. */
  const WINDOW := 6

  function Min(a: int, b: int): int { if a < b then a else b }

  function Max(a: int, b: int): int { if a < b then b else a }

  /** The label an option line may carry: `"A. "`, `"B. "`, `"C. "` or `"D. "`. */
  function Label(letter: char): string { [letter, '.', ' '] }

  /**
   * `line.split('. ', 1)[1] if '. ' in line else line` (app.py:116): a
   * suffix of the line, and the whole line exactly when `". "` does not
   * occur in it.
   */
  function QuestionText(line: string): (q: string)
    ensures |q| <= |line| && q == line[|line| - |q|..]
    ensures q == line <==> !Contains(line, ". ")
  {
    AfterFirst(line, ". ")
  }

  /**
   * `t[3:] if t.startswith('X. ') else t` with `t = line.strip()`
   * (app.py:118-121): the stripped line loses its leading label exactly when
   * the label is the option's own letter's, and is returned verbatim
   * otherwise.
   */
  function OptionText(line: string, letter: char): (o: string)
    ensures StartsWith(Strip(line), Label(letter)) ==> Label(letter) + o == Strip(line)
    ensures !StartsWith(Strip(line), Label(letter)) ==> o == Strip(line)
  {
    var t := Strip(line);
    if StartsWith(t, Label(letter)) then
      assert t == t[..3] + t[3..];
      t[3..]
    else t
  }

  /** The record built from the window that starts at line `i` (app.py:115-123). */
  function QuestionAt(lines: seq<string>, i: nat): (q: QuizQuestion)
    requires i + 4 < |lines|
    ensures |q.options| == 4
  {
    QuizQuestion(QuestionText(lines[i]),
      [OptionText(lines[i + 1], 'A'), OptionText(lines[i + 2], 'B'),
       OptionText(lines[i + 3], 'C'), OptionText(lines[i + 4], 'D')])
  }

  /**
   * The first line of each window the loop of parse_quiz reads from line `i`
   * on, in a text of `n` lines, when `remaining` more records may still be
   * collected; or the IndexError the loop meets at a window that starts
   * fewer than five lines before the end.
   */
  function WindowStarts(n: nat, i: nat, remaining: int): (w: Result<seq<nat>, QuizFault>)
    ensures w.Success? ==> forall k :: 0 <= k < |w.value| ==> i <= w.value[k] && w.value[k] + 4 < n
    ensures w.Success? ==> |w.value| <= Max(remaining, 0)
    ensures w.Failure? ==> w.error == IndexError(n)
    decreases n - i
  {
    if i >= n || remaining <= 0 then Success([])
    else if i + 4 >= n then Failure(IndexError(n))
    else Prefixed([i], WindowStarts(n, i + WINDOW, remaining - 1))
  }

  function Prefixed(prefix: seq<nat>, w: Result<seq<nat>, QuizFault>): (r: Result<seq<nat>, QuizFault>)
    ensures r.Failure? == w.Failure?
    ensures w.Success? ==> r.value == prefix + w.value
    ensures w.Failure? ==> r.error == w.error
  {
    match w
    case Success(starts) => Success(prefix + starts)
    case Failure(e) => Failure(e)
  }

  /** The records built from the windows at `starts`, in order. */
  function RecordsAt(lines: seq<string>, starts: seq<nat>): seq<QuizQuestion>
    requires forall k :: 0 <= k < |starts| ==> starts[k] + 4 < |lines|
  {
    seq(|starts|, k requires 0 <= k < |starts| => QuestionAt(lines, starts[k]))
  }

  /**
   * What the loop of parse_quiz returns or raises on the given lines: the
   * only error is the read of `lines[len(lines)]`, and otherwise at most
   * `num_questions` records of four options each.
   */
  function QuizOfLines(lines: seq<string>, numQuestions: int): (r: Result<seq<QuizQuestion>, QuizFault>)
    ensures r.Failure? ==> r.error == IndexError(|lines|)
    ensures r.Success? ==> |r.value| <= Max(numQuestions, 0)
    ensures r.Success? ==> forall k :: 0 <= k < |r.value| ==> |r.value[k].options| == 4
  {
    match WindowStarts(|lines|, 0, numQuestions)
    case Failure(e) => Failure(e)
    case Success(starts) => Success(RecordsAt(lines, starts))
  }

  /**
   * What parse_quiz(quiz_text, num_questions) returns or raises: at most
   * `num_questions` records of four options each, or the IndexError at the
   * index one past the last line.
   */
  function QuizOf(quizText: string, numQuestions: int): (r: Result<seq<QuizQuestion>, QuizFault>)
    ensures r.Failure? ==> r.error == IndexError(|Split(quizText, "\n")|)
    ensures r.Success? ==> |r.value| <= Max(numQuestions, 0)
    ensures r.Success? ==> forall k :: 0 <= k < |r.value| ==> |r.value[k].options| == 4
  {
    QuizOfLines(Split(quizText, "\n"), numQuestions)
  }

  /** parse_quiz: split the text into lines, then walk them six at a time. */
  method ParseQuiz(quizText: string, numQuestions: int) returns (r: Result<seq<QuizQuestion>, QuizFault>)
    ensures r == QuizOf(quizText, numQuestions)
  {
    var lines := Split(quizText, "\n");
    r := CollectQuestions(lines, numQuestions);
  }

  /** The loop of parse_quiz (app.py:112-124). */
  method CollectQuestions(lines: seq<string>, numQuestions: int) returns (r: Result<seq<QuizQuestion>, QuizFault>)
    ensures r == QuizOfLines(lines, numQuestions)
  {
    var questions: seq<QuizQuestion> := [];
    var i: nat := 0;
    ghost var starts: seq<nat> := [];
    WindowProgressStart(|lines|, numQuestions);
    while i < |lines|
      invariant WindowProgress(|lines|, numQuestions, i, starts)
      invariant questions == RecordsAt(lines, starts)
    {
      if |questions| >= numQuestions {
        break;
      }
      if i + 4 >= |lines| {
        // lines[i + 1] .. lines[i + 4] reach past the last line
        QuizOfLinesFault(lines, numQuestions, i, starts);
        return Failure(IndexError(|lines|));
      }
      WindowProgressStep(|lines|, numQuestions, i, starts);
      RecordsAtAppend(lines, starts, i);
      starts := starts + [i];
      questions := questions + [QuestionAt(lines, i)];
      i := i + WINDOW;
    }
    QuizOfLinesDone(lines, numQuestions, i, starts, questions);
    return Success(questions);
  }

  /**
   * The loop of parse_quiz, standing at line `i` of `n`, has read the
   * windows at `starts`, and the windows still ahead complete the run.
   */
  ghost predicate WindowProgress(n: nat, numQuestions: int, i: nat, starts: seq<nat>) {
    (forall k :: 0 <= k < |starts| ==> starts[k] + 4 < n)
    && WindowStarts(n, 0, numQuestions) == Prefixed(starts, WindowStarts(n, i, numQuestions - |starts|))
  }

  lemma WindowProgressStart(n: nat, numQuestions: int)
    ensures WindowProgress(n, numQuestions, 0, [])
  {
    PrefixedNothing(WindowStarts(n, 0, numQuestions));
  }

  lemma WindowProgressStep(n: nat, numQuestions: int, i: nat, starts: seq<nat>)
    requires WindowProgress(n, numQuestions, i, starts)
    requires |starts| < numQuestions && i + 4 < n
    ensures WindowProgress(n, numQuestions, i + WINDOW, starts + [i])
  {
    WindowStartsStep(n, i, numQuestions - |starts|, starts);
  }

  lemma WindowProgressFault(n: nat, numQuestions: int, i: nat, starts: seq<nat>)
    requires WindowProgress(n, numQuestions, i, starts)
    requires |starts| < numQuestions && i < n && i + 4 >= n
    ensures WindowStarts(n, 0, numQuestions) == Failure(IndexError(n))
  {
  }

  lemma WindowProgressDone(n: nat, numQuestions: int, i: nat, starts: seq<nat>)
    requires WindowProgress(n, numQuestions, i, starts)
    requires i >= n || |starts| >= numQuestions
    ensures WindowStarts(n, 0, numQuestions) == Success(starts)
  {
    assert starts + [] == starts;
  }

  /** The loop stops at a window that reaches past the last line: parse_quiz raises IndexError. */
  lemma QuizOfLinesFault(lines: seq<string>, numQuestions: int, i: nat, starts: seq<nat>)
    requires WindowProgress(|lines|, numQuestions, i, starts)
    requires |starts| < numQuestions && i < |lines| && i + 4 >= |lines|
    ensures QuizOfLines(lines, numQuestions) == Failure(IndexError(|lines|))
  {
    WindowProgressFault(|lines|, numQuestions, i, starts);
  }

  /** The loop stops at the end of the lines or at the cap: parse_quiz returns what it has read. */
  lemma QuizOfLinesDone(lines: seq<string>, numQuestions: int, i: nat, starts: seq<nat>, questions: seq<QuizQuestion>)
    requires WindowProgress(|lines|, numQuestions, i, starts)
    requires questions == RecordsAt(lines, starts)
    requires i >= |lines| || |questions| >= numQuestions
    ensures QuizOfLines(lines, numQuestions) == Success(questions)
  {
    WindowProgressDone(|lines|, numQuestions, i, starts);
  }

  lemma PrefixedNothing(w: Result<seq<nat>, QuizFault>)
    ensures Prefixed([], w) == w
  {
    if w.Success? {
      assert [] + w.value == w.value;
    }
  }

  /** Reading the window at `i` moves it from the windows still ahead to the windows read. */
  lemma WindowStartsStep(n: nat, i: nat, remaining: int, starts: seq<nat>)
    requires i + 4 < n && remaining > 0
    ensures Prefixed(starts, WindowStarts(n, i, remaining))
      == Prefixed(starts + [i], WindowStarts(n, i + WINDOW, remaining - 1))
  {
    var later := WindowStarts(n, i + WINDOW, remaining - 1);
    if later.Success? {
      assert starts + ([i] + later.value) == starts + [i] + later.value;
    }
  }

  lemma RecordsAtAppend(lines: seq<string>, starts: seq<nat>, i: nat)
    requires forall k :: 0 <= k < |starts| ==> starts[k] + 4 < |lines|
    requires i + 4 < |lines|
    ensures RecordsAt(lines, starts + [i]) == RecordsAt(lines, starts) + [QuestionAt(lines, i)]
  {
  }

  /** Six more lines left means one more window and the same final window. */
  lemma WindowStep(d: nat)
    requires d >= 6
    ensures (d - 6) % 6 == d % 6 && (d - 6) / 6 == d / 6 - 1 && (d - 5) / 6 == (d + 1) / 6 - 1
  {
  }

  /**
   * From line `i` on, the loop raises exactly when the final window is short
   * (1 to 4 lines) and is reached before the cap; the failing read is
   * `lines[len(lines)]`.
   */
  lemma {:induction false} WindowsFault(n: nat, i: nat, remaining: int)
    ensures var w := WindowStarts(n, i, remaining); var d := LinesLeft(n, i);
      (w.Failure? <==> 1 <= d % 6 <= 4 && d / 6 < remaining)
      && (w.Failure? ==> w.error == IndexError(n))
    decreases n - i
  {
    if i >= n || remaining <= 0 || i + 4 >= n {
    } else {
      WindowsFault(n, i + WINDOW, remaining - 1);
      if LinesLeft(n, i) >= 6 {
        WindowStep(LinesLeft(n, i));
      }
    }
  }

  /**
   * From line `i` on, a run that does not raise reads one window per
   * complete window left, up to the cap, the k-th at line i + 6k.
   */
  lemma {:induction false} WindowsRead(n: nat, i: nat, remaining: int)
    ensures var w := WindowStarts(n, i, remaining); var d := LinesLeft(n, i);
      w.Success? ==> (|w.value| == Min((d + 1) / 6, Max(remaining, 0))
                      && forall k :: 0 <= k < |w.value| ==> w.value[k] == i + 6 * k)
    decreases n - i
  {
    if i >= n || remaining <= 0 || i + 4 >= n {
    } else {
      WindowsRead(n, i + WINDOW, remaining - 1);
      if LinesLeft(n, i) >= 6 {
        WindowStep(LinesLeft(n, i));
      }
      var w := WindowStarts(n, i, remaining);
      if w.Success? {
        var rest := WindowStarts(n, i + WINDOW, remaining - 1).value;
        assert w.value == [i] + rest;
        forall k | 0 <= k < |w.value|
          ensures w.value[k] == i + 6 * k
        {
          if k > 0 {
            assert w.value[k] == rest[k - 1];
          }
        }
      }
    }
  }

  /**
   * parse_quiz on text of L lines (`quiz_text.split('\n')`) raises exactly
   * when L leaves a final window of 1 to 4 lines and fewer than
   * `num_questions` complete windows precede it; the failing read is
   * `lines[L]`. Otherwise it returns min((L + 1) / 6, max(num_questions, 0))
   * records.
   */
  lemma ParseQuizOutcome(quizText: string, numQuestions: int)
    ensures var n := |Split(quizText, "\n")|; var r := QuizOf(quizText, numQuestions);
      (r.Failure? <==> 1 <= n % 6 <= 4 && n / 6 < numQuestions)
      && (r.Failure? ==> r.error == IndexError(n))
      && (r.Success? ==> |r.value| == Min((n + 1) / 6, Max(numQuestions, 0)))
  {
    var lines := Split(quizText, "\n");
    WindowsFault(|lines|, 0, numQuestions);
    WindowsRead(|lines|, 0, numQuestions);
  }

  /**
   * Record k is built from lines 6k .. 6k+4 alone, so records appear in the
   * order of their windows: its question from line 6k, its options from
   * lines 6k+1 .. 6k+4 with letters A to D.
   */
  lemma QuizRecordsInOrder(quizText: string, numQuestions: int)
    ensures var lines := Split(quizText, "\n"); var r := QuizOf(quizText, numQuestions);
      r.Success? ==> forall k :: 0 <= k < |r.value| ==>
        6 * k + 4 < |lines| && r.value[k] == QuestionAt(lines, 6 * k)
  {
    var lines := Split(quizText, "\n");
    WindowsRead(|lines|, 0, numQuestions);
  }

  /** parse_quiz never returns more than `num_questions` records, and none when it is not positive. */
  lemma QuizCapped(quizText: string, numQuestions: int)
    ensures var r := QuizOf(quizText, numQuestions);
      (r.Success? ==> |r.value| <= Max(numQuestions, 0))
      && (numQuestions <= 0 ==> r == Success([]))
  {
    ParseQuizOutcome(quizText, numQuestions);
  }

  /** Text of exactly 6N lines never raises and yields min(N, max(num_questions, 0)) records. */
  lemma QuizOfWholeWindows(quizText: string, numQuestions: int, windows: nat)
    requires |Split(quizText, "\n")| == 6 * windows
    ensures var r := QuizOf(quizText, numQuestions);
      r.Success? && |r.value| == Min(windows, Max(numQuestions, 0))
  {
    var n := 6 * windows;
    assert n % 6 == 0 && (n + 1) / 6 == windows;
    ParseQuizOutcome(quizText, numQuestions);
  }

  /**
   * Text without a line break, such as the error message the completion
   * client returns in place of a completion, makes parse_quiz raise as soon
   * as one question is requested.
   */
  lemma QuizOfOneLineFaults(quizText: string, numQuestions: int)
    requires '\n' !in quizText && numQuestions >= 1
    ensures QuizOf(quizText, numQuestions) == Failure(IndexError(1))
  {
    ContainsChar(quizText, '\n');
    ParseQuizOutcome(quizText, numQuestions);
  }

  // Well-formed completion text, as the prompt asks for it

  /** A record that the six-line layout can carry and that reads back unchanged. */
  predicate Renderable(q: QuizQuestion) {
    |q.options| == 4 && '\n' !in q.question
    && forall j :: 0 <= j < 4 ==>
         '\n' !in q.options[j] && q.options[j] != [] && !IsSpace(q.options[j][|q.options[j]| - 1])
  }

  /** The six lines of question number `number`: "n. question", "A. option" .. "D. option", "". */
  function QuestionLines(q: QuizQuestion, number: nat): seq<string>
    requires |q.options| == 4
  {
    [NatToString(number) + ". " + q.question,
     Label('A') + q.options[0], Label('B') + q.options[1],
     Label('C') + q.options[2], Label('D') + q.options[3], ""]
  }

  function QuizLines(qs: seq<QuizQuestion>, first: nat): (lines: seq<string>)
    requires forall k :: 0 <= k < |qs| ==> Renderable(qs[k])
    ensures |lines| == 6 * |qs|
  {
    if qs == [] then []
    else
      assert Renderable(qs[0]);
      QuestionLines(qs[0], first) + QuizLines(qs[1..], first + 1)
  }

  /** Quiz text numbered from 1, one line per entry, joined with line breaks. */
  function QuizText(qs: seq<QuizQuestion>): string
    requires forall k :: 0 <= k < |qs| ==> Renderable(qs[k])
  {
    Join(QuizLines(qs, 1), "\n")
  }

  lemma {:induction false} QuizLinesAt(qs: seq<QuizQuestion>, first: nat, k: nat, j: nat)
    requires forall m :: 0 <= m < |qs| ==> Renderable(qs[m])
    requires k < |qs| && j < 6
    ensures QuizLines(qs, first)[6 * k + j] == QuestionLines(qs[k], first + k)[j]
    decreases k
  {
    if k > 0 {
      QuizLinesAt(qs[1..], first + 1, k - 1, j);
      assert QuizLines(qs, first)[6 * k + j] == QuizLines(qs[1..], first + 1)[6 * (k - 1) + j];
    }
  }

  /** A labelled option line reads back as its option, even with blanks around it. */
  lemma OptionTextOfLabelled(pad1: string, letter: char, option: string, pad2: string)
    requires 'A' <= letter <= 'D' && AllSpace(pad1) && AllSpace(pad2)
    requires option != [] && !IsSpace(option[|option| - 1])
    ensures OptionText(pad1 + Label(letter) + option + pad2, letter) == option
  {
    var line := pad1 + Label(letter) + option + pad2;
    var core := Label(letter) + option;
    assert Strip(line) == core by {
      assert line == pad1 + core + pad2;
      assert core[|core| - 1] == option[|option| - 1];
      StripPadded(pad1, core, pad2);
    }
    assert core[..3] == Label(letter) && core[3..] == option;
  }

  lemma OptionLineReadBack(letter: char, option: string)
    requires 'A' <= letter <= 'D'
    requires option != [] && !IsSpace(option[|option| - 1])
    ensures OptionText(Label(letter) + option, letter) == option
  {
    OptionTextOfLabelled("", letter, option, "");
    assert "" + Label(letter) + option + "" == Label(letter) + option;
  }

  /** A numbered question line reads back as its question text. */
  lemma QuestionTextOfNumbered(number: nat, question: string)
    ensures QuestionText(NatToString(number) + ". " + question) == question
  {
    AvoidsFirstChar(NatToString(number), ". ");
    AfterFirstOfJoined(NatToString(number), ". ", question);
  }

  /** A window holding a rendered question reads back as that question. */
  lemma WindowReadBack(lines: seq<string>, i: nat, q: QuizQuestion, number: nat)
    requires Renderable(q) && i + 4 < |lines|
    requires lines[i] == NatToString(number) + ". " + q.question
    requires lines[i + 1] == Label('A') + q.options[0] && lines[i + 2] == Label('B') + q.options[1]
    requires lines[i + 3] == Label('C') + q.options[2] && lines[i + 4] == Label('D') + q.options[3]
    ensures QuestionAt(lines, i) == q
  {
    assert QuestionText(lines[i]) == q.question by {
      QuestionTextOfNumbered(number, q.question);
    }
    assert OptionText(lines[i + 1], 'A') == q.options[0] by {
      OptionLineReadBack('A', q.options[0]);
    }
    assert OptionText(lines[i + 2], 'B') == q.options[1] by {
      OptionLineReadBack('B', q.options[1]);
    }
    assert OptionText(lines[i + 3], 'C') == q.options[2] by {
      OptionLineReadBack('C', q.options[2]);
    }
    assert OptionText(lines[i + 4], 'D') == q.options[3] by {
      OptionLineReadBack('D', q.options[3]);
    }
    FourItems(q.options);
  }

  /** Lines equal to a question's rendered lines are, one by one, its numbered question and labelled options. */
  lemma WindowLines(lines: seq<string>, i: nat, q: QuizQuestion, number: nat)
    requires |q.options| == 4 && i + 4 < |lines|
    requires lines[i..i + 5] == QuestionLines(q, number)[..5]
    ensures lines[i] == NatToString(number) + ". " + q.question
    ensures lines[i + 1] == Label('A') + q.options[0] && lines[i + 2] == Label('B') + q.options[1]
    ensures lines[i + 3] == Label('C') + q.options[2] && lines[i + 4] == Label('D') + q.options[3]
  {
    var window := lines[i..i + 5];
    assert lines[i] == window[0] && lines[i + 1] == window[1] && lines[i + 2] == window[2];
    assert lines[i + 3] == window[3] && lines[i + 4] == window[4];
  }

  lemma FourItems(items: seq<string>)
    requires |items| == 4
    ensures items == [items[0], items[1], items[2], items[3]]
  {
  }

  lemma QuestionAtRendered(qs: seq<QuizQuestion>, k: nat)
    requires forall m :: 0 <= m < |qs| ==> Renderable(qs[m])
    requires k < |qs|
    ensures 6 * k + 4 < |QuizLines(qs, 1)| && QuestionAt(QuizLines(qs, 1), 6 * k) == qs[k]
  {
    RenderedWindow(qs, k);
    WindowLines(QuizLines(qs, 1), 6 * k, qs[k], 1 + k);
    WindowReadBack(QuizLines(qs, 1), 6 * k, qs[k], 1 + k);
  }

  /** The window of the k-th question in rendered quiz lines holds that question's lines. */
  lemma RenderedWindow(qs: seq<QuizQuestion>, k: nat)
    requires forall m :: 0 <= m < |qs| ==> Renderable(qs[m])
    requires k < |qs|
    ensures 6 * k + 4 < |QuizLines(qs, 1)|
    ensures QuizLines(qs, 1)[6 * k..6 * k + 5] == QuestionLines(qs[k], 1 + k)[..5]
  {
    assert 6 * (k + 1) <= 6 * |qs|;
    var lines := QuizLines(qs, 1);
    var window := QuestionLines(qs[k], 1 + k);
    forall j | 0 <= j < 5
      ensures lines[6 * k + j] == window[j]
    {
      QuizLinesAt(qs, 1, k, j);
    }
    assert lines[6 * k..6 * k + 5] == window[..5];
  }

  lemma QuestionLinesUnbroken(q: QuizQuestion, number: nat, j: nat)
    requires Renderable(q) && j < 6
    ensures '\n' !in QuestionLines(q, number)[j]
  {
    if j == 0 {
      var digits := NatToString(number);
      assert forall c | c in digits :: IsDigit(c);
    }
  }

  lemma {:induction false} QuizLinesUnbroken(qs: seq<QuizQuestion>, first: nat)
    requires forall k :: 0 <= k < |qs| ==> Renderable(qs[k])
    ensures forall m :: 0 <= m < |QuizLines(qs, first)| ==> '\n' !in QuizLines(qs, first)[m]
  {
    if qs != [] {
      QuizLinesUnbroken(qs[1..], first + 1);
      var head := QuestionLines(qs[0], first);
      forall j | 0 <= j < 6 ensures '\n' !in head[j] {
        QuestionLinesUnbroken(qs[0], first, j);
      }
      assert QuizLines(qs, first) == head + QuizLines(qs[1..], first + 1);
    }
  }

  /** Rendered quiz text splits back into the lines it was joined from. */
  lemma QuizTextLines(qs: seq<QuizQuestion>)
    requires qs != [] && forall k :: 0 <= k < |qs| ==> Renderable(qs[k])
    ensures Split(QuizText(qs), "\n") == QuizLines(qs, 1)
  {
    QuizLinesUnbroken(qs, 1);
    SplitJoin(QuizLines(qs, 1), "\n");
  }

  /** On 6N lines the loop reads the first min(N, max(num_questions, 0)) windows, at lines 0, 6, 12, ... */
  lemma WholeWindowStarts(windows: nat, numQuestions: int)
    ensures var w := WindowStarts(6 * windows, 0, numQuestions);
      w.Success? && |w.value| == Min(windows, Max(numQuestions, 0))
      && forall k :: 0 <= k < |w.value| ==> w.value[k] == 6 * k
  {
    var n := 6 * windows;
    assert LinesLeft(n, 0) == n;
    WholeWindowsCount(windows);
    WindowsFault(n, 0, numQuestions);
    WindowsRead(n, 0, numQuestions);
  }

  lemma WholeWindowsCount(windows: nat)
    ensures (6 * windows) % 6 == 0 && (6 * windows + 1) / 6 == windows
  {
  }

  /**
   * Well-formed quiz text reads back as the questions it was written from,
   * cut to the first `num_questions` of them: asking for K questions from
   * text that holds more yields exactly K.
   */
  lemma QuizRoundTrip(qs: seq<QuizQuestion>, numQuestions: int)
    requires qs != [] && forall k :: 0 <= k < |qs| ==> Renderable(qs[k])
    ensures QuizOf(QuizText(qs), numQuestions) == Success(qs[..Min(|qs|, Max(numQuestions, 0))])
  {
    QuizTextLines(qs);
    var lines := QuizLines(qs, 1);
    WholeWindowStarts(|qs|, numQuestions);
    var starts := WindowStarts(|lines|, 0, numQuestions).value;
    var got := RecordsAt(lines, starts);
    var want := qs[..Min(|qs|, Max(numQuestions, 0))];
    forall k | 0 <= k < |got|
      ensures got[k] == want[k]
    {
      QuestionAtRendered(qs, k);
    }
    assert got == want;
  }

  /** The one-question cats quiz fits the six-line layout. */
  lemma CatsRenderable(q: QuizQuestion)
    requires q == QuizQuestion("What are cats?", ["Mammals", "Reptiles", "Birds", "Fish"])
    ensures Renderable(q)
  {
    assert '\n' !in q.question;
    forall j | 0 <= j < 4
      ensures '\n' !in q.options[j] && q.options[j] != [] && !IsSpace(q.options[j][|q.options[j]| - 1])
    {
      var o := q.options[j];
      assert o == "Mammals" || o == "Reptiles" || o == "Birds" || o == "Fish";
      assert o[|o| - 1] == 's' || o[|o| - 1] == 'h';
    }
  }

  /** The lines of the one-question cats quiz are the rendering of its question. */
  lemma CatsQuizLines(q: QuizQuestion)
    requires q == QuizQuestion("What are cats?", ["Mammals", "Reptiles", "Birds", "Fish"])
    ensures Renderable(q)
    ensures QuizLines([q], 1) == ["1. What are cats?", "A. Mammals", "B. Reptiles", "C. Birds", "D. Fish", ""]
  {
    CatsRenderable(q);
    assert NatToString(1) == "1";
    var ls := QuestionLines(q, 1);
    assert ls[0] == "1. What are cats?";
    assert ls[1] == "A. Mammals";
    assert ls[2] == "B. Reptiles";
    assert ls[3] == "C. Birds";
    assert ls[4] == "D. Fish";
    assert [q][1..] == [];
    assert QuizLines([q], 1) == ls + [];
  }

  /**
   * The one-question cats quiz: one question line, four labelled option lines and
   * an empty line, joined with line breaks, read with num_questions = 1.
   */
  lemma QuizExample(quizText: string)
    requires quizText == Join(["1. What are cats?", "A. Mammals", "B. Reptiles", "C. Birds", "D. Fish", ""], "\n")
    ensures QuizOf(quizText, 1)
      == Success([QuizQuestion("What are cats?", ["Mammals", "Reptiles", "Birds", "Fish"])])
  {
    var q := QuizQuestion("What are cats?", ["Mammals", "Reptiles", "Birds", "Fish"]);
    CatsQuizLines(q);
    QuizRoundTrip([q], 1);
    assert [q][..Min(1, Max(1, 0))] == [q];
  }
}
