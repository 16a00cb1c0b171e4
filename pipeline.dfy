/**
 * generate_summary, generate_quiz and generate_flashcards (app.py:72-84):
 * each sends its prompt to the completion service and hands the completion
 * text to its parser. The service (generate_content, app.py:86-106) is the
 * parameter `complete`; on a failed request it answers with an error
 * message instead of a completion (app.py:106), modelled by
 * CompletionErrorText.
 */
module Pipeline {
  import opened Outcomes
  import opened PyStr
  import opened Prompts
  import opened QuizParser
  import opened FlashcardParser

  /**
   * generate_summary: the completion of the summary prompt, as returned. The
   * prompt is built from the transcript's first 4000 characters alone.
   */
  function GenerateSummary(transcript: string, complete: string -> string): (summary: string)
    ensures summary == complete(SummaryPrompt(Excerpt(transcript)))
  {
    assert Excerpt(Excerpt(transcript)) == Excerpt(transcript);
    complete(SummaryPrompt(transcript))
  }

  /** generate_quiz: parse_quiz applied to the completion of the quiz prompt. */
  method GenerateQuiz(transcript: string, numQuestions: int, complete: string -> string)
    returns (r: Result<seq<QuizQuestion>, QuizFault>)
    ensures r == QuizOf(complete(QuizPrompt(transcript, numQuestions)), numQuestions)
  {
    var quizText := complete(QuizPrompt(transcript, numQuestions));
    r := ParseQuiz(quizText, numQuestions);
  }

  /** generate_flashcards: parse_flashcards applied to the completion of the flashcard prompt. */
  method GenerateFlashcards(transcript: string, complete: string -> string) returns (cards: seq<Flashcard>)
    ensures cards == FlashcardsOf(complete(FlashcardPrompt(transcript)))
  {
    var flashcardsText := complete(FlashcardPrompt(transcript));
    cards := ParseFlashcards(flashcardsText);
  }

  const COMPLETION_ERROR_PREFIX := "Error calling Gemini API: "

  /**
   * What generate_content returns when the request fails with the given
   * description (app.py:106): a single line whenever the description is one.
   */
  function CompletionErrorText(description: string): (text: string)
    ensures StartsWith(text, COMPLETION_ERROR_PREFIX)
    ensures '\n' in text <==> '\n' in description
  {
    assert '\n' !in COMPLETION_ERROR_PREFIX;
    CutAfter(COMPLETION_ERROR_PREFIX, description);
    COMPLETION_ERROR_PREFIX + description
  }

  /**
   * When the completion service answers with a one-line error message,
   * generate_quiz raises IndexError as soon as one question is requested,
   * and generate_flashcards returns no cards.
   */
  lemma CompletionErrorOutcomes(description: string, numQuestions: int)
    requires '\n' !in description
    ensures numQuestions >= 1 ==> QuizOf(CompletionErrorText(description), numQuestions) == Failure(IndexError(1))
    ensures FlashcardsOf(CompletionErrorText(description)) == []
  {
    var text := CompletionErrorText(description);
    if numQuestions >= 1 {
      QuizOfOneLineFaults(text, numQuestions);
    }
    FlashcardsOfOneLine(text);
  }

  /**
   * The three results depend on the transcript only through its first 4000
   * characters: transcripts that agree there get the same summary, quiz
   * outcome and flashcards from the same service.
   */
  lemma OnlyExcerptReachesService(t1: string, t2: string, numQuestions: int, complete: string -> string)
    requires Excerpt(t1) == Excerpt(t2)
    ensures GenerateSummary(t1, complete) == GenerateSummary(t2, complete)
    ensures QuizOf(complete(QuizPrompt(t1, numQuestions)), numQuestions)
         == QuizOf(complete(QuizPrompt(t2, numQuestions)), numQuestions)
    ensures FlashcardsOf(complete(FlashcardPrompt(t1))) == FlashcardsOf(complete(FlashcardPrompt(t2)))
  {
    SummaryPromptsAgree(t1, t2);
    QuizPromptsAgree(t1, numQuestions, t2, numQuestions);
    FlashcardPromptsAgree(t1, t2);
  }
}
