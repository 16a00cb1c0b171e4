/**
 * The three prompts sent to the completion service (app.py:72-84). Each is
 * a fixed instruction followed by the first 4000 characters of the
 * transcript; the quiz prompt also carries the requested question count.
 * Each prompt comes with a reader that recovers what was embedded in it,
 * which shows that nothing else of the transcript reaches the service.
 */
module Prompts {
  import opened Outcomes
  import opened PyStr
  import opened Decimal

  /** How much of the transcript a prompt carries (`transcript[:4000]`). */
  const EXCERPT_LIMIT := 4000

  const SUMMARY_INSTRUCTION := "Summarize this transcript in a concise paragraph: "
  const QUIZ_LEAD := "Generate "
  /** What follows the count; its leading blank is where the count ends. */
  const QUIZ_INSTRUCTION := " " + "multiple-choice quiz questions based on this transcript. For each question, provide 4 options and indicate the correct answer: "
  const FLASHCARD_INSTRUCTION := "Generate 5 flashcards based on this transcript. For each flashcard, provide a question and its answer: "

  /** `transcript[:4000]`: the longest prefix of at most 4000 characters. */
  function Excerpt(transcript: string): (e: string)
    ensures |e| == if |transcript| < EXCERPT_LIMIT then |transcript| else EXCERPT_LIMIT
    ensures e == transcript[..|e|]
  {
    transcript[..if |transcript| < EXCERPT_LIMIT then |transcript| else EXCERPT_LIMIT]
  }

  /**
   * `f"Summarize this transcript in a concise paragraph: {transcript[:4000]}"`
   * (app.py:73): the instruction, then at most 4000 characters of the
   * transcript, all of it when it is no longer than that.
   */
  function SummaryPrompt(transcript: string): (p: string)
    ensures StartsWith(p, SUMMARY_INSTRUCTION)
    ensures |p| <= |SUMMARY_INSTRUCTION| + EXCERPT_LIMIT
    ensures |transcript| <= EXCERPT_LIMIT ==> p == SUMMARY_INSTRUCTION + transcript
  {
    CutAfter(SUMMARY_INSTRUCTION, Excerpt(transcript));
    SUMMARY_INSTRUCTION + Excerpt(transcript)
  }

  /**
   * `f"Generate {num_questions} multiple-choice ...: {transcript[:4000]}"`
   * (app.py:77): the count written in decimal inside the instruction, then
   * at most 4000 characters of the transcript, all of it when it is no
   * longer than that.
   */
  function QuizPrompt(transcript: string, numQuestions: int): (p: string)
    ensures StartsWith(p, QUIZ_LEAD + IntToString(numQuestions) + QUIZ_INSTRUCTION)
    ensures |p| <= |QUIZ_LEAD + IntToString(numQuestions) + QUIZ_INSTRUCTION| + EXCERPT_LIMIT
    ensures |transcript| <= EXCERPT_LIMIT ==> p == QUIZ_LEAD + IntToString(numQuestions) + QUIZ_INSTRUCTION + transcript
  {
    CutAfter(QUIZ_LEAD + IntToString(numQuestions) + QUIZ_INSTRUCTION, Excerpt(transcript));
    QUIZ_LEAD + IntToString(numQuestions) + QUIZ_INSTRUCTION + Excerpt(transcript)
  }

  /**
   * `f"Generate 5 flashcards ...: {transcript[:4000]}"` (app.py:82): the
   * instruction, then at most 4000 characters of the transcript, all of it
   * when it is no longer than that.
   */
  function FlashcardPrompt(transcript: string): (p: string)
    ensures StartsWith(p, FLASHCARD_INSTRUCTION)
    ensures |p| <= |FLASHCARD_INSTRUCTION| + EXCERPT_LIMIT
    ensures |transcript| <= EXCERPT_LIMIT ==> p == FLASHCARD_INSTRUCTION + transcript
  {
    CutAfter(FLASHCARD_INSTRUCTION, Excerpt(transcript));
    FLASHCARD_INSTRUCTION + Excerpt(transcript)
  }

  /** The transcript text a summary prompt carries, if `p` has that shape. */
  function ReadSummaryPrompt(p: string): Option<string> {
    if StartsWith(p, SUMMARY_INSTRUCTION) then Some(p[|SUMMARY_INSTRUCTION|..]) else None
  }

  /** The question count and transcript text a quiz prompt carries, if `p` has that shape. */
  function ReadQuizPrompt(p: string): Option<(int, string)> {
    if !StartsWith(p, QUIZ_LEAD) then None
    else
      var rest := p[|QUIZ_LEAD|..];
      match Find(rest, " ")
      case None => None
      case Some(k) =>
        var tail := rest[k..];
        if !StartsWith(tail, QUIZ_INSTRUCTION) then None
        else match ParseInt(rest[..k])
          case None => None
          case Some(n) => Some((n, tail[|QUIZ_INSTRUCTION|..]))
  }

  /** The transcript text a flashcard prompt carries, if `p` has that shape. */
  function ReadFlashcardPrompt(p: string): Option<string> {
    if StartsWith(p, FLASHCARD_INSTRUCTION) then Some(p[|FLASHCARD_INSTRUCTION|..]) else None
  }

  /** The summary prompt carries the transcript's first 4000 characters and nothing else of it. */
  lemma SummaryPromptReadBack(transcript: string)
    ensures ReadSummaryPrompt(SummaryPrompt(transcript)) == Some(Excerpt(transcript))
  {
    var p := SummaryPrompt(transcript);
    assert p[..|SUMMARY_INSTRUCTION|] == SUMMARY_INSTRUCTION;
  }

  /** The quiz prompt carries the count verbatim and the transcript's first 4000 characters. */
  lemma QuizPromptReadBack(transcript: string, numQuestions: int)
    ensures ReadQuizPrompt(QuizPrompt(transcript, numQuestions)) == Some((numQuestions, Excerpt(transcript)))
  {
    var digits := IntToString(numQuestions);
    var e := Excerpt(transcript);
    var tail := QUIZ_INSTRUCTION + e;
    var p := QuizPrompt(transcript, numQuestions);
    Regroup(QUIZ_LEAD, digits, QUIZ_INSTRUCTION, e);
    CutAfter(QUIZ_LEAD, digits + tail);
    NoBlankInCount(numQuestions);
    CountThenTail(digits, tail);
    CutAfter(QUIZ_INSTRUCTION, e);
    IntRoundTrip(numQuestions);
  }

  lemma Regroup(a: string, b: string, c: string, d: string)
    ensures a + b + c + d == a + (b + (c + d))
  {
  }

  /** `str(n)` holds no blank, so the first blank of the quiz prompt ends the count. */
  lemma NoBlankInCount(n: int)
    ensures ' ' !in IntToString(n)
  {
    var digits := IntToString(n);
    assert forall i :: 0 <= i < |digits| ==> digits[i] != ' ';
  }

  /** The fixed head of `a + b` is `a`; the remainder is `b`. */
  lemma CutAfter(a: string, b: string)
    ensures StartsWith(a + b, a) && (a + b)[|a|..] == b
  {
    assert (a + b)[..|a|] == a;
  }

  /** The first blank of `digits + tail` is where `tail` begins, when `tail` starts with one. */
  lemma CountThenTail(digits: string, tail: string)
    requires ' ' !in digits && |tail| > 0 && tail[0] == ' '
    ensures var s := digits + tail;
      Find(s, " ") == Some(|digits|) && s[..|digits|] == digits && s[|digits|..] == tail
  {
    assert digits + tail == digits + [' '] + tail[1..];
    FindChar(digits, ' ', tail[1..]);
  }

  lemma FlashcardPromptReadBack(transcript: string)
    ensures ReadFlashcardPrompt(FlashcardPrompt(transcript)) == Some(Excerpt(transcript))
  {
    var p := FlashcardPrompt(transcript);
    assert p[..|FLASHCARD_INSTRUCTION|] == FLASHCARD_INSTRUCTION;
  }

  /** Two transcripts give the same summary prompt exactly when their first 4000 characters agree. */
  lemma SummaryPromptsAgree(t1: string, t2: string)
    ensures SummaryPrompt(t1) == SummaryPrompt(t2) <==> Excerpt(t1) == Excerpt(t2)
  {
    SummaryPromptReadBack(t1);
    SummaryPromptReadBack(t2);
  }

  /**
   * Two quiz prompts are equal exactly when the counts are equal and the
   * transcripts agree on their first 4000 characters.
   */
  lemma QuizPromptsAgree(t1: string, n1: int, t2: string, n2: int)
    ensures QuizPrompt(t1, n1) == QuizPrompt(t2, n2) <==> n1 == n2 && Excerpt(t1) == Excerpt(t2)
  {
    QuizPromptReadBack(t1, n1);
    QuizPromptReadBack(t2, n2);
  }

  lemma FlashcardPromptsAgree(t1: string, t2: string)
    ensures FlashcardPrompt(t1) == FlashcardPrompt(t2) <==> Excerpt(t1) == Excerpt(t2)
  {
    FlashcardPromptReadBack(t1);
    FlashcardPromptReadBack(t2);
  }
}
