/** The study session as a state machine: the four pieces of state the app
    component holds, and one transition function per user intent. */
module Session {
  import opened Deck
  import opened Statistics
  import ProgressBar

  datatype State = State(cards: seq<Card>, currentIndex: nat, showAnswer: bool, isDarkMode: bool)

  /** The deck is non-empty and the position names one of its cards. */
  predicate Valid(s: State)
  {
    |s.cards| > 0 && s.currentIndex < |s.cards|
  }

  /** The state on start-up; the theme comes from the preference store. */
  function Initial(isDarkMode: bool): (s: State)
    ensures Valid(s) && |s.cards| == 10
    ensures s.currentIndex == 0 && !s.showAnswer && s.isDarkMode == isDarkMode
    ensures UnansweredCount(s.cards) == 10
  {
    State(InitialDeck(), 0, false, isDarkMode)
  }

  /** The guard of "Previous": the position is the first card. A one-card
      deck is at its first and its last card at once. */
  predicate IsFirstCard(s: State)
    ensures Valid(s) && |s.cards| == 1 ==> IsFirstCard(s) && IsLastCard(s)
  {
    s.currentIndex == 0
  }

  /** The guard of "Next": in a valid state, no position after the current
      one lies within the deck. */
  predicate IsLastCard(s: State)
    ensures Valid(s) ==> (IsLastCard(s) <==> s.currentIndex + 1 >= |s.cards|)
  {
    s.currentIndex == |s.cards| - 1
  }

  /** "Next" on the last card changes nothing; elsewhere it moves one card on
      and hides the answer. The deck and the theme are untouched. */
  function GoNext(s: State): (r: State)
    ensures Valid(s) ==> Valid(r)
    ensures IsLastCard(s) ==> r == s
    ensures !IsLastCard(s) ==> r.currentIndex == s.currentIndex + 1 && !r.showAnswer
    ensures r.cards == s.cards && r.isDarkMode == s.isDarkMode
  {
    if IsLastCard(s) then s else s.(currentIndex := s.currentIndex + 1, showAnswer := false)
  }

  /** The mirror image of GoNext at the first card. */
  function GoPrevious(s: State): (r: State)
    ensures Valid(s) ==> Valid(r)
    ensures IsFirstCard(s) ==> r == s
    ensures !IsFirstCard(s) ==> r.currentIndex == s.currentIndex - 1 && !r.showAnswer
    ensures r.cards == s.cards && r.isDarkMode == s.isDarkMode
  {
    if IsFirstCard(s) then s else s.(currentIndex := s.currentIndex - 1, showAnswer := false)
  }

  /** Clicking the card or its "show answer" button: the answer flag flips
      and nothing else changes. */
  function Flip(s: State): (r: State)
    ensures r.showAnswer == !s.showAnswer
    ensures r.(showAnswer := s.showAnswer) == s
  {
    s.(showAnswer := !s.showAnswer)
  }

  /** Marking sets the status of the current card only and keeps its text;
      position, answer flag and theme stay. */
  function MarkCurrent(s: State, status: Status): (r: State)
    ensures Valid(s) ==> Valid(r)
    ensures |r.cards| == |s.cards|
    ensures s.currentIndex < |s.cards| ==>
      r.cards[s.currentIndex]
        == Card(s.cards[s.currentIndex].question, s.cards[s.currentIndex].answer, status)
    ensures forall j :: 0 <= j < |s.cards| && j != s.currentIndex ==> r.cards[j] == s.cards[j]
    ensures r.(cards := s.cards) == s
  {
    s.(cards := MarkAt(s.cards, s.currentIndex, status))
  }

  /** `confirmed` is the user's answer to the confirmation prompt. A confirmed
      restart clears every status, keeps the order and the text of the cards,
      and returns to the first card with the answer hidden; a declined one
      changes nothing. */
  function Restart(s: State, confirmed: bool): (r: State)
    ensures Valid(s) ==> Valid(r)
    ensures !confirmed ==> r == s
    ensures confirmed ==>
      |r.cards| == |s.cards| &&
      (forall j :: 0 <= j < |s.cards| ==>
        r.cards[j] == Card(s.cards[j].question, s.cards[j].answer, Unanswered)) &&
      r.currentIndex == 0 && !r.showAnswer && r.isDarkMode == s.isDarkMode
  {
    if confirmed then s.(cards := ResetAll(s.cards), currentIndex := 0, showAnswer := false) else s
  }

  /** `order` is the reordering the random shuffle happened to produce. The
      deck is reordered by it, and the session returns to the first card with
      the answer hidden. */
  function Shuffle(s: State, order: seq<nat>): (r: State)
    requires IsOrder(order, |s.cards|)
    ensures Valid(s) ==> Valid(r)
    ensures |r.cards| == |s.cards|
    ensures forall k :: 0 <= k < |s.cards| ==> r.cards[k] == s.cards[order[k]]
    ensures r.currentIndex == 0 && !r.showAnswer && r.isDarkMode == s.isDarkMode
  {
    s.(cards := Permute(s.cards, order), currentIndex := 0, showAnswer := false)
  }

  /** The theme switch negates the theme and nothing else. */
  function ToggleTheme(s: State): (r: State)
    ensures r.isDarkMode == !s.isDarkMode
    ensures r.(isDarkMode := s.isDarkMode) == s
  {
    s.(isDarkMode := !s.isDarkMode)
  }

  /** What the progress bar shows: position `currentIndex + 1` of `|cards|`.
      A non-empty deck shows a number; an empty one would show `Infinity`. */
  function Progress(s: State): (r: ProgressBar.Shown)
    ensures |s.cards| > 0 ==> r.Number?
    ensures |s.cards| == 0 ==> r == ProgressBar.Infinity
  {
    ProgressBar.Percentage(s.currentIndex + 1, |s.cards|)
  }

  datatype Move = Forward | Backward

  /** The state after pressing the navigation buttons in the order given:
      the deck and the theme are never touched. */
  function Navigate(s: State, moves: seq<Move>): (r: State)
    ensures r.cards == s.cards && r.isDarkMode == s.isDarkMode
    decreases |moves|
  {
    if moves == [] then s
    else Navigate(if moves[0] == Forward then GoNext(s) else GoPrevious(s), moves[1..])
  }

  function Forwards(k: nat): (moves: seq<Move>)
    ensures |moves| == k && forall i :: 0 <= i < k ==> moves[i] == Forward
  {
    seq(k, i => Forward)
  }

  // ----- navigation -----

  /** On a valid state each navigation button does nothing exactly when its
      guard holds, and both guards hold exactly on a one-card deck. */
  lemma NavigationGuards(s: State)
    requires Valid(s)
    ensures IsFirstCard(s) <==> GoPrevious(s) == s
    ensures IsLastCard(s) <==> GoNext(s) == s
    ensures IsFirstCard(s) && IsLastCard(s) <==> |s.cards| == 1
  {
  }

  /** "Next" then "Previous" (and the reverse) returns to the same card, answer hidden. */
  lemma NextPreviousRoundTrip(s: State)
    requires Valid(s)
    ensures !IsLastCard(s) ==> GoPrevious(GoNext(s)) == s.(showAnswer := false)
    ensures !IsFirstCard(s) ==> GoNext(GoPrevious(s)) == s.(showAnswer := false)
  {
  }

  /** Any sequence of navigation keeps the position on a card of the deck. */
  lemma {:induction false} NavigateStaysInRange(s: State, moves: seq<Move>)
    requires Valid(s)
    ensures Valid(Navigate(s, moves))
    decreases |moves|
  {
    if moves != [] {
      var next := if moves[0] == Forward then GoNext(s) else GoPrevious(s);
      NavigateStaysInRange(next, moves[1..]);
    }
  }

  /** Pressing "Next" k times moves k cards on, stopping at the last card. */
  lemma {:induction false} NavigateForwards(s: State, k: nat)
    requires Valid(s)
    ensures Navigate(s, Forwards(k)).currentIndex
         == if s.currentIndex + k < |s.cards| then s.currentIndex + k else |s.cards| - 1
    decreases k
  {
    if k > 0 {
      assert Forwards(k)[1..] == Forwards(k - 1);
      NavigateForwards(GoNext(s), k - 1);
    }
  }

  // ----- flip and theme -----

  /** Two flips undo each other. */
  lemma FlipTwice(s: State)
    ensures Flip(Flip(s)) == s
  {
  }

  /** Switching the theme twice undoes it. */
  lemma ToggleThemeTwice(s: State)
    ensures ToggleTheme(ToggleTheme(s)) == s
  {
  }

  // ----- marking -----

  /** Marking moves the current card from its old status's count to the new
      status's count and leaves every other count as it was. */
  lemma MarkCurrentCounts(s: State, status: Status, counted: Status)
    requires Valid(s)
    ensures Count(MarkCurrent(s, status).cards, counted)
         == Count(s.cards, counted)
            - (if s.cards[s.currentIndex].known == counted then 1 else 0)
            + (if status == counted then 1 else 0)
  {
    CountAfterMark(s.cards, s.currentIndex, status, counted);
  }

  /** Marking "known" then "unknown" leaves "unknown": the last mark wins. */
  lemma MarkLastWins(s: State, first: Status, second: Status)
    ensures MarkCurrent(MarkCurrent(s, first), second) == MarkCurrent(s, second)
  {
    MarkLastWriteWins(s.cards, s.currentIndex, first, second);
  }

  /** Flip, mark "unknown", go on and come back: the mark is still there and
      the answer is hidden again. */
  lemma MarkSurvivesNavigation(s: State)
    requires Valid(s) && !IsLastCard(s)
    ensures GoNext(MarkCurrent(Flip(s), Unknown)).showAnswer == false
    ensures GoPrevious(GoNext(MarkCurrent(Flip(s), Unknown))).currentIndex == s.currentIndex
    ensures GoPrevious(GoNext(MarkCurrent(Flip(s), Unknown))).cards[s.currentIndex].known == Unknown
  {
  }

  // ----- restart and shuffle -----

  /** After a confirmed restart every card is unanswered and the score is 0. */
  lemma RestartCounts(s: State)
    ensures UnansweredCount(Restart(s, true).cards) == |s.cards|
    ensures KnownCount(Restart(s, true).cards) == 0 && UnknownCount(Restart(s, true).cards) == 0
    ensures PercentageKnown(Restart(s, true).cards) == 0
  {
    ResetCounts(s.cards);
  }

  /** Shuffling keeps every card together with its status, only in another
      order, and so keeps the statistics. */
  lemma ShuffleKeepsCards(s: State, order: seq<nat>, counted: Status)
    requires IsOrder(order, |s.cards|)
    ensures multiset(Shuffle(s, order).cards) == multiset(s.cards)
    ensures Count(Shuffle(s, order).cards, counted) == Count(s.cards, counted)
    ensures PercentageKnown(Shuffle(s, order).cards) == PercentageKnown(s.cards)
  {
    PermuteIsPermutation(s.cards, order);
    PermuteKeepsStatistics(s.cards, order, counted);
  }

  // ----- statistics and progress -----

  /** In every state the three counts add up to the deck, and the score is a
      percentage. */
  lemma StatisticsSpec(s: State)
    ensures KnownCount(s.cards) + UnknownCount(s.cards) + UnansweredCount(s.cards) == |s.cards|
    ensures PercentageKnown(s.cards) <= 100
  {
    CountsPartitionDeck(s.cards);
  }

  /** In a valid state the bar shows a number between 0 and 100, and 100 on
      the last card. */
  lemma ProgressSpec(s: State)
    requires Valid(s)
    ensures Progress(s).Number? && Progress(s).value <= 100
    ensures IsLastCard(s) ==> Progress(s) == ProgressBar.Number(100)
  {
    ProgressBar.PercentageInRange(s.currentIndex + 1, |s.cards|);
    ProgressBar.PercentageFullAtLast(s.currentIndex + 1, |s.cards|);
  }

  /** The start-up state shows card 1 of 10, 10 % on the bar. */
  lemma InitialProgress(isDarkMode: bool)
    ensures Progress(Initial(isDarkMode)) == ProgressBar.Number(10)
    ensures ProgressBar.Counter(Initial(isDarkMode).currentIndex + 1, |Initial(isDarkMode).cards|)
         == "1 of 10"
  {
    ProgressBar.FirstOfTen();
  }

  /** Ten cards, all unanswered, first card: nine times "Next" reaches the last
      card, a tenth changes nothing, and marking it known gives one known card,
      nine unanswered and a score of 100. */
  lemma TenCardWalkthrough(isDarkMode: bool)
    ensures Navigate(Initial(isDarkMode), Forwards(9)).currentIndex == 9
    ensures IsLastCard(Navigate(Initial(isDarkMode), Forwards(9)))
    ensures GoNext(Navigate(Initial(isDarkMode), Forwards(9))) == Navigate(Initial(isDarkMode), Forwards(9))
    ensures KnownCount(MarkCurrent(Navigate(Initial(isDarkMode), Forwards(9)), Known).cards) == 1
    ensures UnansweredCount(MarkCurrent(Navigate(Initial(isDarkMode), Forwards(9)), Known).cards) == 9
    ensures PercentageKnown(MarkCurrent(Navigate(Initial(isDarkMode), Forwards(9)), Known).cards) == 100
  {
    var s0 := Initial(isDarkMode);
    var s := Navigate(s0, Forwards(9));
    NavigateForwards(s0, 9);
    NavigateStaysInRange(s0, Forwards(9));
    var t := MarkCurrent(s, Known);
    CountAfterMark(s.cards, 9, Known, Known);
    CountAfterMark(s.cards, 9, Known, Unanswered);
    CountAfterMark(s.cards, 9, Known, Unknown);
    PercentageKnownAllKnown(t.cards);
  }
}
