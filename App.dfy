/** The app component: its state fields and the event handlers that update
    them, each tied to the transition function of module Session. */
module StudyApp {
  import opened Deck
  import opened Statistics
  import Session

  class App {
    var cards: seq<Card>
    var currentIndex: nat
    var showAnswer: bool
    var isDarkMode: bool

    /** The fields as one value. */
    function State(): Session.State
      reads this
    {
      Session.State(cards, currentIndex, showAnswer, isDarkMode)
    }

    predicate Valid()
      reads this
    {
      Session.Valid(State())
    }

    /** `preferDark` is what the preference store yields on start-up. */
    constructor (preferDark: bool)
      ensures Valid() && State() == Session.Initial(preferDark)
    {
      cards := InitialDeck();
      currentIndex := 0;
      showAnswer := false;
      isDarkMode := preferDark;
    }

    method ToggleTheme()
      requires Valid()
      modifies this
      ensures Valid() && State() == Session.ToggleTheme(old(State()))
    {
      isDarkMode := !isDarkMode;
    }

    method GoNext()
      requires Valid()
      modifies this
      ensures Valid() && State() == Session.GoNext(old(State()))
    {
      if currentIndex != |cards| - 1 {
        currentIndex := currentIndex + 1;
        showAnswer := false;
      }
    }

    method GoPrevious()
      requires Valid()
      modifies this
      ensures Valid() && State() == Session.GoPrevious(old(State()))
    {
      if currentIndex != 0 {
        currentIndex := currentIndex - 1;
        showAnswer := false;
      }
    }

    /** `confirmed` stands for the answer to "Are you sure you want to restart?". */
    method Restart(confirmed: bool)
      requires Valid()
      modifies this
      ensures Valid() && State() == Session.Restart(old(State()), confirmed)
    {
      if confirmed {
        cards := ResetAll(cards);
        currentIndex := 0;
        showAnswer := false;
      }
    }

    /** `order` stands for the reordering the random sort produced. */
    method ShuffleCards(order: seq<nat>)
      requires Valid() && IsOrder(order, |cards|)
      modifies this
      ensures Valid() && State() == Session.Shuffle(old(State()), order)
    {
      cards := Permute(cards, order);
      currentIndex := 0;
      showAnswer := false;
    }

    method MarkAsKnown()
      requires Valid()
      modifies this
      ensures Valid() && State() == Session.MarkCurrent(old(State()), Known)
    {
      cards := MarkAt(cards, currentIndex, Known);
    }

    method MarkAsUnknown()
      requires Valid()
      modifies this
      ensures Valid() && State() == Session.MarkCurrent(old(State()), Unknown)
    {
      cards := MarkAt(cards, currentIndex, Unknown);
    }

    /** The flip handler of the card, `setShowAnswer(!showAnswer)`. */
    method Flip()
      requires Valid()
      modifies this
      ensures Valid() && State() == Session.Flip(old(State()))
    {
      showAnswer := !showAnswer;
    }
  }

  /** A study session driven through the handlers: start on card 1 of 10,
      press "Next" nine times, once more at the end, mark the last card known,
      then flip, mark "unknown", go back one and forward again. */
  method Walkthrough(preferDark: bool)
    returns (lastIndex: nat, stuck: bool, known: nat, unanswered: nat, score: nat, kept: Status)
    ensures lastIndex == 9 && stuck
    ensures known == 1 && unanswered == 9 && score == 100
    ensures kept == Unknown
  {
    var app := new App(preferDark);
    var i := 0;
    while i < 9
      invariant 0 <= i <= 9
      invariant app.Valid() && app.cards == InitialDeck()
      invariant app.currentIndex == i
    {
      app.GoNext();
      i := i + 1;
    }
    lastIndex := app.currentIndex;
    app.GoNext();
    stuck := app.currentIndex == lastIndex;
    var before := app.cards;
    app.MarkAsKnown();
    CountAfterMark(before, 9, Known, Known);
    CountAfterMark(before, 9, Known, Unknown);
    CountAfterMark(before, 9, Known, Unanswered);
    PercentageKnownAllKnown(app.cards);
    known := KnownCount(app.cards);
    unanswered := UnansweredCount(app.cards);
    score := PercentageKnown(app.cards);
    app.GoPrevious();
    app.Flip();
    app.MarkAsUnknown();
    app.GoNext();
    app.GoPrevious();
    kept := app.cards[8].known;
  }
}
