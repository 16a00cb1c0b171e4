/**
 * parse_flashcards (app.py:127-136): reads the completion text as windows
 * of three lines (a question line, an answer line, a separator line) and
 * builds one card per window that has at least two lines. It never raises.
 */
module FlashcardParser {
  import opened PyStr

  datatype Flashcard = Flashcard(question: string, answer: string)

  /** Lines per card: the question, the answer, one separator. */
  const WINDOW := 3

  /**
   * `line.split(': ', 1)[1] if ': ' in line else line` (app.py:133-134): no
   * longer than the line, and the whole line exactly when `": "` does not
   * occur in it.
   */
  function FieldText(line: string): (t: string)
    ensures |t| <= |line|
    ensures t == line <==> !Contains(line, ": ")
  {
    AfterFirst(line, ": ")
  }

  /**
   * The card built from the window that starts at line `i` (app.py:132-135):
   * its question is read from line `i` and its answer from line `i + 1`;
   * each is its whole line exactly when that line holds no `": "`.
   */
  function CardAt(lines: seq<string>, i: nat): (c: Flashcard)
    requires i + 1 < |lines|
    ensures c.question == lines[i] <==> !Contains(lines[i], ": ")
    ensures c.answer == lines[i + 1] <==> !Contains(lines[i + 1], ": ")
  {
    Flashcard(FieldText(lines[i]), FieldText(lines[i + 1]))
  }

  /**
   * The cards the loop of parse_flashcards builds from line `i` on: one for
   * each window of three lines that has an answer line, in order. With d
   * lines left from line `i` that makes (d + 1) / 3 cards.
   */
  function CardsFrom(lines: seq<string>, i: nat): (cards: seq<Flashcard>)
    ensures |cards| == (LinesLeft(|lines|, i) + 1) / 3
    decreases |lines| - i
  {
    if i >= |lines| then []
    else if i + 1 < |lines| then [CardAt(lines, i)] + CardsFrom(lines, i + WINDOW)
    else CardsFrom(lines, i + WINDOW)
  }

  /** What the loop of parse_flashcards returns on the given lines: (L + 1) / 3 cards for L lines. */
  function FlashcardsOfLines(lines: seq<string>): (cards: seq<Flashcard>)
    ensures |cards| == (|lines| + 1) / 3
  {
    CardsFrom(lines, 0)
  }

  /** What parse_flashcards(flashcards_text) returns: one card per started pair of lines. */
  function FlashcardsOf(flashcardsText: string): (cards: seq<Flashcard>)
    ensures |cards| == (|Split(flashcardsText, "\n")| + 1) / 3
  {
    FlashcardsOfLines(Split(flashcardsText, "\n"))
  }

  /** parse_flashcards: split the text into lines, then walk them three at a time. */
  method ParseFlashcards(flashcardsText: string) returns (cards: seq<Flashcard>)
    ensures cards == FlashcardsOf(flashcardsText)
  {
    var lines := Split(flashcardsText, "\n");
    cards := CollectFlashcards(lines);
  }

  /** The loop of parse_flashcards (app.py:130-135). */
  method CollectFlashcards(lines: seq<string>) returns (cards: seq<Flashcard>)
    ensures cards == FlashcardsOfLines(lines)
  {
    cards := [];
    var i: nat := 0;
    CardsFromStart(lines);
    while i < |lines|
      invariant FlashcardsOfLines(lines) == cards + CardsFrom(lines, i)
    {
      if i + 1 < |lines| {
        CardsFromStep(lines, i, cards);
        cards := cards + [CardAt(lines, i)];
      } else {
        CardsFromSkip(lines, i, cards);
      }
      i := i + WINDOW;
    }
    CardsFromEnd(lines, i, cards);
  }

  /** Before the loop runs, the cards still to come are all of them. */
  lemma CardsFromStart(lines: seq<string>)
    ensures FlashcardsOfLines(lines) == [] + CardsFrom(lines, 0)
  {
    assert [] + CardsFrom(lines, 0) == CardsFrom(lines, 0);
  }

  /** A window with an answer line adds its card and leaves the rest to the windows after it. */
  lemma CardsFromStep(lines: seq<string>, i: nat, cards: seq<Flashcard>)
    requires FlashcardsOfLines(lines) == cards + CardsFrom(lines, i)
    requires i + 1 < |lines|
    ensures FlashcardsOfLines(lines) == cards + [CardAt(lines, i)] + CardsFrom(lines, i + WINDOW)
  {
    assert cards + ([CardAt(lines, i)] + CardsFrom(lines, i + WINDOW)) == cards + [CardAt(lines, i)] + CardsFrom(lines, i + WINDOW);
  }

  /** A last window without an answer line adds nothing. */
  lemma CardsFromSkip(lines: seq<string>, i: nat, cards: seq<Flashcard>)
    requires FlashcardsOfLines(lines) == cards + CardsFrom(lines, i)
    requires i < |lines| && i + 1 >= |lines|
    ensures FlashcardsOfLines(lines) == cards + CardsFrom(lines, i + WINDOW)
  {
  }

  /** Past the last line no cards are still to come. */
  lemma CardsFromEnd(lines: seq<string>, i: nat, cards: seq<Flashcard>)
    requires FlashcardsOfLines(lines) == cards + CardsFrom(lines, i)
    requires i >= |lines|
    ensures FlashcardsOfLines(lines) == cards
  {
    assert cards + [] == cards;
  }

  /** The k-th card built from line `i` on comes from the window at line j = i + 3k. */
  lemma {:induction false} CardsFromAt(lines: seq<string>, i: nat, k: nat, j: nat)
    requires k < |CardsFrom(lines, i)| && j == i + 3 * k
    ensures j + 1 < |lines| && CardsFrom(lines, i)[k] == CardAt(lines, j)
    decreases k
  {
    if k == 0 {
      CardsFromHead(lines, i);
    } else {
      CardsFromTail(lines, i, k);
      CardsFromAt(lines, i + WINDOW, k - 1, j);
    }
  }

  /** A run of cards that is not empty starts with the card of the window at line `i`. */
  lemma CardsFromHead(lines: seq<string>, i: nat)
    requires |CardsFrom(lines, i)| > 0
    ensures i + 1 < |lines| && CardsFrom(lines, i)[0] == CardAt(lines, i)
  {
  }

  /** Past its first card, the run from line `i` is the run from line i + 3. */
  lemma CardsFromTail(lines: seq<string>, i: nat, k: nat)
    requires 1 <= k < |CardsFrom(lines, i)|
    ensures k - 1 < |CardsFrom(lines, i + WINDOW)| && CardsFrom(lines, i)[k] == CardsFrom(lines, i + WINDOW)[k - 1]
  {
  }

  /**
   * parse_flashcards on text of L lines returns (L + 1) / 3 cards: card k
   * exists exactly when line 3k + 1 does, and it is built from lines 3k and
   * 3k + 1 alone, so cards appear in the order of their windows.
   */
  lemma FlashcardsOutcome(flashcardsText: string)
    ensures var lines := Split(flashcardsText, "\n"); var cards := FlashcardsOf(flashcardsText);
      |cards| == (|lines| + 1) / 3
      && (forall k: nat :: k < |cards| <==> 3 * k + 1 < |lines|)
      && forall k :: 0 <= k < |cards| ==> 3 * k + 1 < |lines| && cards[k] == CardAt(lines, 3 * k)
  {
    var lines := Split(flashcardsText, "\n");
    var cards := FlashcardsOf(flashcardsText);
    forall k | 0 <= k < |cards|
      ensures 3 * k + 1 < |lines| && cards[k] == CardAt(lines, 3 * k)
    {
      CardsFromAt(lines, 0, k, 3 * k);
    }
  }

  /** Text of exactly 3M lines gives M cards. */
  lemma FlashcardsOfWholeWindows(flashcardsText: string, windows: nat)
    requires |Split(flashcardsText, "\n")| == 3 * windows
    ensures |FlashcardsOf(flashcardsText)| == windows
  {
    FlashcardsOutcome(flashcardsText);
  }

  /**
   * Text without a line break, such as the error message the completion
   * client returns in place of a completion, gives no cards.
   */
  lemma FlashcardsOfOneLine(flashcardsText: string)
    requires '\n' !in flashcardsText
    ensures FlashcardsOf(flashcardsText) == []
  {
    ContainsChar(flashcardsText, '\n');
    FlashcardsOutcome(flashcardsText);
  }

  // Well-formed completion text, as the prompt asks for it

  /** A card that the three-line layout can carry. */
  predicate Renderable(c: Flashcard) {
    '\n' !in c.question && '\n' !in c.answer
  }

  /** The three lines of a card: "Q: question", "A: answer", "". */
  function CardLines(c: Flashcard): seq<string> {
    ["Q: " + c.question, "A: " + c.answer, ""]
  }

  function FlashcardLines(cards: seq<Flashcard>): (lines: seq<string>)
    ensures |lines| == 3 * |cards|
  {
    if cards == [] then [] else CardLines(cards[0]) + FlashcardLines(cards[1..])
  }

  /** Flashcard text, one line per entry, joined with line breaks. */
  function FlashcardText(cards: seq<Flashcard>): string {
    Join(FlashcardLines(cards), "\n")
  }

  lemma {:induction false} FlashcardLinesAt(cards: seq<Flashcard>, k: nat, j: nat)
    requires k < |cards| && j < 3
    ensures FlashcardLines(cards)[3 * k + j] == CardLines(cards[k])[j]
    decreases k
  {
    if k > 0 {
      FlashcardLinesAt(cards[1..], k - 1, j);
      assert FlashcardLines(cards)[3 * k + j] == FlashcardLines(cards[1..])[3 * (k - 1) + j];
    }
  }

  lemma {:induction false} FlashcardLinesUnbroken(cards: seq<Flashcard>)
    requires forall k :: 0 <= k < |cards| ==> Renderable(cards[k])
    ensures forall m :: 0 <= m < |FlashcardLines(cards)| ==> '\n' !in FlashcardLines(cards)[m]
  {
    if cards != [] {
      FlashcardLinesUnbroken(cards[1..]);
      assert Renderable(cards[0]);
      assert FlashcardLines(cards) == CardLines(cards[0]) + FlashcardLines(cards[1..]);
    }
  }

  /** Rendered flashcard text splits back into the lines it was joined from. */
  lemma FlashcardTextLines(cards: seq<Flashcard>)
    requires cards != [] && forall k :: 0 <= k < |cards| ==> Renderable(cards[k])
    ensures Split(FlashcardText(cards), "\n") == FlashcardLines(cards)
  {
    FlashcardLinesUnbroken(cards);
    SplitJoin(FlashcardLines(cards), "\n");
  }

  /** A tagged line reads back as the text after its tag, even when that text holds ": " itself. */
  lemma FieldTextOfTagged(tag: string, text: string)
    requires |tag| == 3 && tag[0] != ':' && tag[1..] == ": "
    ensures FieldText(tag + text) == text
  {
    var head := tag[..1];
    assert tag + text == head + ": " + text by {
      assert tag == head + tag[1..];
    }
    AvoidsFirstChar(head, ": ");
    AfterFirstOfJoined(head, ": ", text);
  }

  lemma CardAtRendered(cards: seq<Flashcard>, k: nat)
    requires k < |cards|
    ensures 3 * k + 1 < |FlashcardLines(cards)| && CardAt(FlashcardLines(cards), 3 * k) == cards[k]
  {
    RenderedCard(cards, k);
    CardReadBack(FlashcardLines(cards), 3 * k, cards[k]);
  }

  /** The window of the k-th card in rendered flashcard lines holds its tagged question and answer. */
  lemma RenderedCard(cards: seq<Flashcard>, k: nat)
    requires k < |cards|
    ensures 3 * k + 1 < |FlashcardLines(cards)|
    ensures FlashcardLines(cards)[3 * k] == "Q: " + cards[k].question
    ensures FlashcardLines(cards)[3 * k + 1] == "A: " + cards[k].answer
  {
    assert 3 * (k + 1) <= 3 * |cards|;
    FlashcardLinesAt(cards, k, 0);
    FlashcardLinesAt(cards, k, 1);
  }

  /** A window holding a card's tagged question and answer reads back as that card. */
  lemma CardReadBack(lines: seq<string>, i: nat, c: Flashcard)
    requires i + 1 < |lines|
    requires lines[i] == "Q: " + c.question && lines[i + 1] == "A: " + c.answer
    ensures CardAt(lines, i) == c
  {
    FieldTextOfTagged("Q: ", c.question);
    FieldTextOfTagged("A: ", c.answer);
  }

  /** Well-formed flashcard text reads back as the cards it was written from. */
  lemma FlashcardRoundTrip(cards: seq<Flashcard>)
    requires forall k :: 0 <= k < |cards| ==> Renderable(cards[k])
    ensures FlashcardsOf(FlashcardText(cards)) == cards
  {
    if cards == [] {
      FlashcardsOfOneLine(FlashcardText(cards));
    } else {
      FlashcardTextLines(cards);
      var lines := FlashcardLines(cards);
      assert (3 * |cards| + 1) / 3 == |cards|;
      var got := FlashcardsOf(FlashcardText(cards));
      forall k | 0 <= k < |got|
        ensures got[k] == cards[k]
      {
        CardsFromAt(lines, 0, k, 3 * k);
        CardAtRendered(cards, k);
      }
    }
  }

  /**
   * One more line after well-formed flashcard text, such as the empty line a
   * trailing line break leaves, starts a window without an answer line and
   * adds no card.
   */
  lemma FlashcardRoundTripWithTail(cards: seq<Flashcard>, tail: string)
    requires forall k :: 0 <= k < |cards| ==> Renderable(cards[k])
    requires '\n' !in tail
    ensures FlashcardsOf(Join(FlashcardLines(cards) + [tail], "\n")) == cards
  {
    TailLinesSplit(cards, tail);
    CardsOfTailLines(cards, tail);
  }

  lemma CardsOfTailLines(cards: seq<Flashcard>, tail: string)
    ensures FlashcardsOfLines(FlashcardLines(cards) + [tail]) == cards
  {
    var lines := FlashcardLines(cards) + [tail];
    assert (3 * |cards| + 2) / 3 == |cards|;
    var got := CardsFrom(lines, 0);
    forall k | 0 <= k < |got|
      ensures got[k] == cards[k]
    {
      CardsFromAt(lines, 0, k, 3 * k);
      TailCardRendered(cards, tail, k);
    }
  }

  lemma TailCardRendered(cards: seq<Flashcard>, tail: string, k: nat)
    requires k < |cards|
    ensures 3 * k + 1 < |FlashcardLines(cards)| && CardAt(FlashcardLines(cards) + [tail], 3 * k) == cards[k]
  {
    CardAtRendered(cards, k);
    CardAtExtended(FlashcardLines(cards), [tail], 3 * k);
  }

  /** A card depends only on its own window, so lines added after it leave it unchanged. */
  lemma CardAtExtended(lines: seq<string>, more: seq<string>, i: nat)
    requires i + 1 < |lines|
    ensures CardAt(lines + more, i) == CardAt(lines, i)
  {
    assert (lines + more)[i] == lines[i] && (lines + more)[i + 1] == lines[i + 1];
  }

  lemma TailLinesSplit(cards: seq<Flashcard>, tail: string)
    requires forall k :: 0 <= k < |cards| ==> Renderable(cards[k])
    requires '\n' !in tail
    ensures Split(Join(FlashcardLines(cards) + [tail], "\n"), "\n") == FlashcardLines(cards) + [tail]
  {
    FlashcardLinesUnbroken(cards);
    SplitJoinWithTail(FlashcardLines(cards), tail);
  }

  lemma SplitJoinWithTail(body: seq<string>, tail: string)
    requires forall m :: 0 <= m < |body| ==> '\n' !in body[m]
    requires '\n' !in tail
    ensures Split(Join(body + [tail], "\n"), "\n") == body + [tail]
  {
    UnbrokenWithTail(body, tail);
    SplitJoin(body + [tail], "\n");
  }

  lemma UnbrokenWithTail(body: seq<string>, tail: string)
    requires forall m :: 0 <= m < |body| ==> '\n' !in body[m]
    requires '\n' !in tail
    ensures forall m :: 0 <= m < |body + [tail]| ==> '\n' !in (body + [tail])[m]
  {
    var lines := body + [tail];
    forall m | 0 <= m < |lines|
      ensures '\n' !in lines[m]
    {
      if m < |body| {
        assert lines[m] == body[m];
      }
    }
  }

  lemma WaterLinesJoined(ls: seq<string>)
    requires |ls| == 4 && ls[0] == "Q: What is H2O?" && ls[1] == "A: Water" && ls[2] == "" && ls[3] == ""
    ensures Join(ls, "\n") == "Q: What is H2O?\nA: Water\n\n"
  {
    assert ls[1..][1..][1..] == [ls[3]];
    assert Join(ls[1..][1..], "\n") == ls[2] + "\n" + ls[3];
    assert Join(ls[1..], "\n") == ls[1] + "\n" + (ls[2] + "\n" + ls[3]);
  }

  /**
   * The `Q: What is H2O?` card text: a trailing blank line leaves a fourth line, whose
   * window has no answer line and is skipped.
   */
  lemma FlashcardExample(flashcardsText: string)
    requires flashcardsText == "Q: What is H2O?\nA: Water\n\n"
    ensures FlashcardsOf(flashcardsText) == [Flashcard("What is H2O?", "Water")]
  {
    var c := Flashcard("What is H2O?", "Water");
    var ls := FlashcardLines([c]) + [""];
    assert FlashcardLines([c]) == CardLines(c);
    assert ls[0] == "Q: What is H2O?" && ls[1] == "A: Water";
    WaterLinesJoined(ls);
    FlashcardRoundTripWithTail([c], "");
  }
}
