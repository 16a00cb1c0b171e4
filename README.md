# Video study-aid back end: parsers, prompts and video ids

The application takes a video URL, fetches the video's transcript and asks a
text-completion service for a summary, a multiple-choice quiz and a set of
flashcards. The completion service answers with free text. The back end
(`app.py`) turns that text into quiz records and flashcards with two
line-window parsers. This project models the parts of `app.py` that are pure
text logic:

- `extract_video_id`: a watch URL (`youtube.com/watch?v=`) or a short URL
  (`youtu.be/`), or no id at all. Module `VideoId`.
- The three prompts, each embedding the first 4000 characters of the
  transcript. Module `Prompts`.
- `parse_quiz`: windows of six lines give `{question, options[4]}` records,
  up to `num_questions` of them. Module `QuizParser`.
- `parse_flashcards`: windows of three lines give `{question, answer}` cards.
  Module `FlashcardParser`.
- `generate_summary`, `generate_quiz` and `generate_flashcards`: the prompt,
  then the completion service, then the parser. Module `Pipeline`. The
  completion service (`generate_content`) is the function parameter
  `complete: string -> string`.

The Python `str` operations the code relies on are modelled in `PyStr`:

- `in`;
- `split(sep)` and `split(sep, 1)`;
- `startswith`;
- `strip()`.

`Decimal` renders and reads back the integer `num_questions` as the quiz
prompt's f-string writes it.

The two parsers loop with a stride and append to a list. Each is a method
with a `while` loop (`QuizParser.CollectQuestions`,
`FlashcardParser.CollectFlashcards`) proved equal to a recursive
specification function. The properties are proved as lemmas about that
function.

`parse_quiz` indexes `lines[i+1]` .. `lines[i+4]` without a bounds check, so
it raises IndexError when a window it reaches starts fewer than five lines
before the end of the text. The model returns `Failure(IndexError(n))` there,
where `n` is the number of lines: `lines[n]` is the first index the source
reads out of range. `QuizParser.ParseQuizOutcome` states exactly which inputs
fault:

- the text has `n` lines with `1 <= n % 6 <= 4`;
- and fewer than `num_questions` whole windows precede the short one.

Otherwise the number of records is `min((n + 1) / 6, max(num_questions, 0))`.

## Model

| member | source | states |
|---|---|---|
| PyStr.Find | app.py:59 | the index returned is an occurrence of `sub` with no earlier one; None exactly when `sub` does not occur |
| PyStr.Split | app.py:111 | `s.split(sep)` has at least one piece, exactly one when `sep` does not occur, and no piece contains `sep` |
| PyStr.SplitJoinsBack | app.py:111 | joining the pieces of `s.split(sep)` with `sep` gives back `s` |
| PyStr.SplitJoin | app.py:130 | splitting on a one-character separator undoes joining pieces that lack it |
| PyStr.SplitOnce | app.py:116 | `s.split(sep, 1)` has two pieces when `sep` occurs and one otherwise, joins back to `s`, and no occurrence of `sep` starts inside the first piece, so the cut is at the first occurrence |
| PyStr.AfterFirst | app.py:116 | the result is what follows the first occurrence of `sep`: no occurrence, whole or overlapping, starts before the cut; or all of `s` when `sep` does not occur |
| PyStr.AfterFirstOfJoined | app.py:133 | for a two-character separator whose two characters differ, such as `: ` or `. `, the text after the first separator of `p + sep + q` is `q` when `p` holds no separator |
| PyStr.Strip | app.py:118-121 | `strip()` is no longer than `s` and neither starts nor ends with whitespace |
| PyStr.StripShape | app.py:118-121 | `strip()` leaves a contiguous slice of `s` with only whitespace cut on either side |
| PyStr.StripStartShape | app.py:118 | leading-whitespace removal leaves a suffix that does not start with whitespace, after whitespace only |
| PyStr.StripEndShape | app.py:118 | trailing-whitespace removal leaves a prefix that does not end with whitespace, before whitespace only |
| PyStr.StripPadded | app.py:118-121 | `strip()` of a trimmed core between whitespace paddings is that core |
| PyStr.FirstPiece | app.py:60 | the first piece of a split is the prefix before the first separator: no occurrence, whole or overlapping, starts inside it |
| PyStr.SecondPiece | app.py:60 | the second piece of `s.split(sep)` is the first piece of the text after the first separator |
| PyStr.LastPiece | app.py:62 | the last piece of a split is a suffix of the string |
| PyStr.LastPieceAfterChar | app.py:62 | for a separator character that occurs, the last piece is the suffix after its last occurrence: the character stands right before it and nowhere inside it |
| PyStr.PiecesLackChar | app.py:62 | no piece of a split on a character contains that character |
| Decimal.NatToString | app.py:77 | `str(n)` for a natural number is a non-empty run of digits without a leading zero |
| Decimal.IntToString | app.py:77 | `str(n)` is non-empty, holds digits and `-` only, and starts with `-` exactly when `n` is negative |
| Decimal.NatRoundTrip | app.py:77 | reading the digits of `str(n)` back gives `n` |
| Decimal.IntRoundTrip | app.py:77 | reading `str(n)` back gives `n` for every integer |
| Decimal.NegativeRoundTrip | app.py:77 | reading `str(n)` back gives `n` for negative `n` |
| Decimal.NonNegativeRoundTrip | app.py:77 | reading `str(n)` back gives `n` for non-negative `n` |
| Prompts.Excerpt | app.py:73 | `transcript[:4000]` is the prefix of the transcript of length `min(len, 4000)` |
| Prompts.SummaryPrompt | app.py:73 | the summary prompt starts with its instruction, carries at most 4000 transcript characters after it, and carries a transcript of at most 4000 characters whole |
| Prompts.QuizPrompt | app.py:77 | the quiz prompt starts with its instruction holding the count in decimal, carries at most 4000 transcript characters after it, and carries a transcript of at most 4000 characters whole |
| Prompts.FlashcardPrompt | app.py:82 | the flashcard prompt starts with its instruction, carries at most 4000 transcript characters after it, and carries a transcript of at most 4000 characters whole |
| Prompts.SummaryPromptReadBack | app.py:73 | the summary prompt is the fixed instruction followed by exactly the excerpt |
| Prompts.QuizPromptReadBack | app.py:77 | the quiz prompt carries `num_questions` verbatim between its fixed pieces, followed by exactly the excerpt |
| Prompts.FlashcardPromptReadBack | app.py:82 | the flashcard prompt is the fixed instruction followed by exactly the excerpt |
| Prompts.SummaryPromptsAgree | app.py:73 | two summary prompts are equal if and only if the transcripts' excerpts are equal |
| Prompts.QuizPromptsAgree | app.py:77 | two quiz prompts are equal if and only if their counts and excerpts are equal |
| Prompts.FlashcardPromptsAgree | app.py:82 | two flashcard prompts are equal if and only if the transcripts' excerpts are equal |
| VideoId.ExtractVideoId | app.py:57-63 | no id is returned exactly when the URL holds neither the watch marker nor the short marker |
| VideoId.WatchUrlId | app.py:59-60 | for a watch URL the id is the text after the first `v=` up to the first `&` or the next `v=`, or to the end when neither follows |
| VideoId.ShortUrlId | app.py:61-62 | for a short URL without the watch marker the id is the suffix after the last `/` |
| VideoId.WatchUrlRoundTrip | app.py:59-60 | the id appended to a watch URL prefix is extracted unchanged when it holds no `&` and no `v=` |
| VideoId.ShortUrlRoundTrip | app.py:61-62 | the id appended to a short URL prefix is extracted unchanged when it holds no `/` |
| QuizParser.QuestionAt | app.py:115-123 | every record has exactly four options |
| QuizParser.QuestionText | app.py:116 | the question is a suffix of its line, and the whole line exactly when the line holds no `. ` |
| QuizParser.OptionText | app.py:118-121 | an option is its stripped line less its own letter's `X. ` label when the stripped line starts with that label, and the stripped line verbatim otherwise |
| QuizParser.WindowStarts | app.py:112-121 | every window read lies inside the text, starting at or after the current line; at most the remaining count of windows is read; the only error is the read one past the last line |
| QuizParser.QuizOfLines | app.py:112-124 | the loop's only error is `IndexError(len(lines))`; otherwise it returns at most `num_questions` records of four options each |
| QuizParser.QuizOf | app.py:108-125 | parse_quiz's only error is `IndexError` at the line count; otherwise at most `num_questions` records of four options each |
| QuizParser.ParseQuiz | app.py:108-125 | splitting the text into lines and running the loop gives the records, or the IndexError, of the specification |
| QuizParser.CollectQuestions | app.py:110-125 | the loop with its early `break` on the count returns the records of the specification, or its IndexError |
| QuizParser.ParseQuizOutcome | app.py:111-124 | IndexError is raised if and only if `1 <= n % 6 <= 4` and fewer than `num_questions` whole windows come first, and it is `IndexError(n)`; otherwise there are `min((n+1)/6, max(num_questions,0))` records |
| QuizParser.QuizRecordsInOrder | app.py:112-124 | record k is built from lines 6k .. 6k+4 alone, so records follow their windows in input order |
| QuizParser.QuizCapped | app.py:112-114 | never more than `num_questions` records, and none when `num_questions <= 0` |
| QuizParser.QuizOfWholeWindows | app.py:111-124 | text of exactly 6N lines succeeds with `min(N, max(num_questions, 0))` records |
| QuizParser.QuizOfOneLineFaults | app.py:111-121 | a text without a line break raises IndexError(1) as soon as one question is requested |
| QuizParser.OptionTextOfLabelled | app.py:118-121 | an option line written with its own label reads back as the option |
| QuizParser.QuestionTextOfNumbered | app.py:116 | a question line written as `number. question` reads back as the question |
| QuizParser.QuizTextLines | app.py:111 | splitting a rendered quiz on line breaks gives back its six lines per question |
| QuizParser.QuestionAtRendered | app.py:115-123 | the window of question k in a rendered quiz reads back as question k |
| QuizParser.QuizRoundTrip | app.py:108-125 | parsing the rendered text of K questions succeeds with the first `min(K, max(num_questions, 0))` of them |
| QuizParser.QuizExample | app.py:108-125 | the six-line cats question read with `num_questions = 1` gives that one record |
| FlashcardParser.ParseFlashcards | app.py:127-136 | splitting the text into lines and running the loop gives the cards of the specification |
| FlashcardParser.CollectFlashcards | app.py:129-136 | the stride-3 loop with its guard returns the cards of the specification |
| FlashcardParser.FieldText | app.py:133-134 | a question or answer is no longer than its line, and the whole line exactly when the line holds no `: ` |
| FlashcardParser.CardAt | app.py:132-135 | the card of the window at line i reads its question from line i and its answer from line i+1, each the whole line exactly when that line holds no `: ` |
| FlashcardParser.CardsFrom | app.py:131-135 | the loop builds (lines left + 1) / 3 cards from line i on |
| FlashcardParser.FlashcardsOfLines | app.py:131-135 | the loop builds (L + 1) / 3 cards from L lines |
| FlashcardParser.FlashcardsOf | app.py:127-136 | parse_flashcards returns (L + 1) / 3 cards for a text of L lines |
| FlashcardParser.CardsFromAt | app.py:131-135 | the k-th card from line i on is built from lines i+3k and i+3k+1 |
| FlashcardParser.FlashcardsOutcome | app.py:130-135 | there are `(n + 1) / 3` cards; card k exists if and only if line 3k+1 does, and it is built from lines 3k and 3k+1 |
| FlashcardParser.FlashcardsOfWholeWindows | app.py:130-135 | text of exactly 3M lines gives M cards |
| FlashcardParser.FlashcardsOfOneLine | app.py:130-132 | a text without a line break gives no cards |
| FlashcardParser.FlashcardLinesAt | app.py:131 | line 3k+j of rendered cards is line j of card k |
| FlashcardParser.FlashcardTextLines | app.py:130 | splitting rendered cards on line breaks gives back their three lines per card |
| FlashcardParser.FieldTextOfTagged | app.py:133-134 | a `Q: ` or `A: ` tagged line reads back as its text |
| FlashcardParser.CardAtRendered | app.py:133-135 | the window of card k in rendered cards reads back as card k |
| FlashcardParser.FlashcardRoundTrip | app.py:127-136 | parsing rendered cards gives back exactly those cards |
| FlashcardParser.FlashcardRoundTripWithTail | app.py:127-136 | a trailing line after rendered cards adds no card |
| FlashcardParser.FlashcardExample | app.py:127-136 | the text `Q: What is H2O?\nA: Water\n\n` gives one card, question `What is H2O?`, answer `Water` |
| Pipeline.GenerateSummary | app.py:72-74 | the summary is the service's completion of the prompt built from the transcript's first 4000 characters alone |
| Pipeline.GenerateQuiz | app.py:76-79 | the quiz outcome is `parse_quiz` of the service's completion of the quiz prompt |
| Pipeline.GenerateFlashcards | app.py:81-84 | the cards are `parse_flashcards` of the service's completion of the flashcard prompt |
| Pipeline.CompletionErrorText | app.py:106 | the service's error answer starts with its fixed prefix and is one line exactly when the error description is |
| Pipeline.CompletionErrorOutcomes | app.py:76-84 | when the service answers with its one-line error message, generate_quiz raises IndexError(1) for any positive count and generate_flashcards gives no cards |
| Pipeline.OnlyExcerptReachesService | app.py:72-84 | transcripts with the same first 4000 characters get the same summary, quiz outcome and flashcards from the same service |

## Left out

- `process_video` (app.py:25-55): the Flask route, JSON request and response framing and HTTP status codes are request plumbing.
- `generate_content` (app.py:86-106): the HTTP request, its generation parameters and the logging are not modelled. The service is the parameter `complete`. Only its error answer `"Error calling Gemini API: ..."` (app.py:106) is modelled, as `Pipeline.CompletionErrorText`. The total parameter cannot express that generate_content itself raises past its handler: a reply without `candidates` or with an empty list raises KeyError or IndexError at app.py:102, and neither is a `RequestException`. `Pipeline.GenerateQuiz`, `Pipeline.GenerateFlashcards` and `Pipeline.OnlyExcerptReachesService` hold only for calls to the service that return.
- `fetch_transcript` (app.py:65-70) calls a third-party transcript library. The transcript is an input string.
- Configuration loading and the API-key check at startup (app.py:9-23) are process I/O.
- `script.js` is not part of this model. It is browser rendering with no parsing logic.
- `num_questions` is taken to be an integer. A non-integer value from the request is not modelled.
- A missing (None) URL is not modelled; `extract_video_id` takes a string.
- VideoId.ExtractVideoId: the watch-URL id follows the code, `url.split('v=')[1].split('&')[0]`. It therefore also ends where a second `v=` begins, not only at `&`.
- QuizParser.ParseQuiz: models the IndexError as the code raises it. A variant that clamps the window or skips short windows is not modelled.
- Strings are sequences of Dafny `char`, which are Unicode scalar values. The lone surrogate code points a Python `str` can hold are not modelled. Whitespace for `strip()` is the fixed set of characters listed in `PyStr.IsSpace`.
