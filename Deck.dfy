/** The deck of flashcards: the `Card` record, the fixed starting deck, and the
    three ways the app rebuilds the deck (mark one card, reset all, reorder). */
module Deck {

  /** Self-assessment of a card: the source's `known: true | false | null`. */
  datatype Status = Unanswered | Known | Unknown

  datatype Card = Card(question: string, answer: string, known: Status)

  // The questions and answers of the starting deck, card by card.
  const Question1 := "What are the different data types in JavaScript?"
  const Answer1 := "String, Number, Boolean, Undefined, Null, Symbol, BigInt, and Object"
  const Question2 := "What is closure in JavaScript?"
  const Answer2 := "A closure is a function that has access to variables in its outer scope, even after the outer function has returned"
  const Question3 := "What is the difference between let and const?"
  const Answer3 := "let allows reassignment, const does not allow reassignment (but objects/arrays can still be mutated)"
  const Question4 := "What is the difference between == and ===?"
  const Answer4 := "== compares values with type coercion, === compares values and types without coercion"
  const Question5 := "What is the purpose of async/await?"
  const Answer5 := "async/await provides a cleaner syntax for working with promises, making asynchronous code look synchronous"
  const Question6 := "What is the DOM?"
  const Answer6 := "The Document Object Model (DOM) is a programming interface for HTML documents, representing the page as a tree of objects"
  const Question7 := "What is event bubbling?"
  const Answer7 := "Event bubbling is when an event starts from the target element and bubbles up to parent elements in the DOM tree"
  const Question8 := "What is the difference between null and undefined?"
  const Answer8 := "undefined means a variable has been declared but not assigned a value. null is an explicit assignment representing 'no value'"
  const Question9 := "What is a promise in JavaScript?"
  const Answer9 := "A Promise is an object representing the eventual completion or failure of an asynchronous operation"
  const Question10 := "What is the spread operator (...)?"
  const Answer10 := "The spread operator expands an array or object into individual elements, useful for copying or merging"

  /** The ten cards the app starts with, in this order, all unanswered. */
  function InitialDeck(): (d: seq<Card>)
    ensures |d| == 10
    ensures forall i :: 0 <= i < |d| ==> d[i].known == Unanswered
  {
    [ Card(Question1, Answer1, Unanswered),
      Card(Question2, Answer2, Unanswered),
      Card(Question3, Answer3, Unanswered),
      Card(Question4, Answer4, Unanswered),
      Card(Question5, Answer5, Unanswered),
      Card(Question6, Answer6, Unanswered),
      Card(Question7, Answer7, Unanswered),
      Card(Question8, Answer8, Unanswered),
      Card(Question9, Answer9, Unanswered),
      Card(Question10, Answer10, Unanswered)
    ]
  }

  /** The deck rebuilt with the card at `index` given `status`: the source maps
      over the deck and replaces the one element whose position equals the index. */
  function MarkAt(cards: seq<Card>, index: nat, status: Status): (r: seq<Card>)
    ensures index < |cards| ==> r == cards[index := cards[index].(known := status)]
    ensures |cards| <= index ==> r == cards
  {
    seq(|cards|, j requires 0 <= j < |cards| =>
      if j == index then cards[j].(known := status) else cards[j])
  }

  /** The deck rebuilt with every status cleared (restart). */
  function ResetAll(cards: seq<Card>): (r: seq<Card>)
    ensures |r| == |cards|
    ensures forall j :: 0 <= j < |r| ==>
      r[j].question == cards[j].question && r[j].answer == cards[j].answer && r[j].known == Unanswered
  {
    seq(|cards|, j requires 0 <= j < |cards| => cards[j].(known := Unanswered))
  }

  /** `order` names every position 0 .. n-1 exactly once. */
  predicate IsOrder(order: seq<nat>, n: nat)
  {
    |order| == n &&
    (forall k :: 0 <= k < n ==> order[k] < n) &&
    (forall k, l :: 0 <= k < l < n ==> order[k] != order[l])
  }

  /** The deck reordered so that its k-th card is the old deck's `order[k]`-th. */
  function Permute(cards: seq<Card>, order: seq<nat>): (r: seq<Card>)
    requires IsOrder(order, |cards|)
    ensures |r| == |cards|
    ensures forall k :: 0 <= k < |cards| ==> r[k] == cards[order[k]]
  {
    seq(|cards|, k requires 0 <= k < |cards| => cards[order[k]])
  }

  // ----- properties -----

  /** Marking twice is the same as marking once with the later status. */
  lemma MarkLastWriteWins(cards: seq<Card>, index: nat, first: Status, second: Status)
    ensures MarkAt(MarkAt(cards, index, first), index, second) == MarkAt(cards, index, second)
  {
  }

  /** Marking touches nothing but the status at `index`. */
  lemma MarkChangesOnlyThatCard(cards: seq<Card>, index: nat, status: Status)
    requires index < |cards|
    ensures |MarkAt(cards, index, status)| == |cards|
    ensures MarkAt(cards, index, status)[index].known == status
    ensures MarkAt(cards, index, status)[index].question == cards[index].question
    ensures MarkAt(cards, index, status)[index].answer == cards[index].answer
    ensures forall j :: 0 <= j < |cards| && j != index ==> MarkAt(cards, index, status)[j] == cards[j]
  {
  }

  /** Resetting an already reset deck changes nothing. */
  lemma ResetIdempotent(cards: seq<Card>)
    ensures ResetAll(ResetAll(cards)) == ResetAll(cards)
  {
  }

  /** Reordering keeps every card, with its status, exactly as often as before. */
  lemma {:induction false} PermuteIsPermutation(cards: seq<Card>, order: seq<nat>)
    requires IsOrder(order, |cards|)
    ensures multiset(Permute(cards, order)) == multiset(cards)
    decreases |cards|
  {
    var n := |cards|;
    if n == 0 {
      assert Permute(cards, order) == [];
    } else {
      var k := order[n - 1];
      var front := order[..n - 1];
      // The deck without the card at k, and the remaining order renumbered for it.
      var rest := cards[..k] + cards[k + 1..];
      var order' := seq(n - 1, i requires 0 <= i < n - 1 =>
        if front[i] < k then front[i] else front[i] - 1);
      assert forall i :: 0 <= i < n - 1 ==> front[i] != k by {
        forall i | 0 <= i < n - 1 ensures front[i] != k {
          assert order[i] != order[n - 1];
        }
      }
      assert IsOrder(order', n - 1) by {
        forall k1, l1 | 0 <= k1 < l1 < n - 1 ensures order'[k1] != order'[l1] {
          assert order[k1] != order[l1];
        }
      }
      PermuteIsPermutation(rest, order');
      assert Permute(cards, order) == Permute(rest, order') + [cards[k]] by {
        forall i | 0 <= i < n - 1
          ensures Permute(cards, order)[i] == Permute(rest, order')[i]
        {
          assert front[i] == order[i];
        }
      }
      assert cards == cards[..k] + [cards[k]] + cards[k + 1..];
    }
  }

  /** The order of a deck with the card at `j` taken out, renumbered as an
      order of the whole deck that puts the card at `j` last. */
  function Lift(order: seq<nat>, j: nat): (r: seq<nat>)
    requires IsOrder(order, |order|) && j <= |order|
    ensures IsOrder(r, |order| + 1)
    ensures r[|order|] == j
    ensures forall i :: 0 <= i < |order| ==> r[i] == if order[i] < j then order[i] else order[i] + 1
  {
    var r := seq(|order|, i requires 0 <= i < |order| =>
      if order[i] < j then order[i] else order[i] + 1) + [j];
    assert forall k, l :: 0 <= k < l < |order| ==> order[k] != order[l];
    r
  }

  lemma PermuteLift(cards: seq<Card>, order: seq<nat>, j: nat)
    requires j < |cards| && IsOrder(order, |cards| - 1)
    ensures Permute(cards, Lift(order, j))
         == Permute(cards[..j] + cards[j + 1..], order) + [cards[j]]
  {
  }

  /** Taking the last card out of `p` and the same card at `j` out of `cards`
      leaves two decks with the same cards. */
  lemma MultisetRemoveAt(p: seq<Card>, cards: seq<Card>, j: nat)
    requires multiset(p) == multiset(cards) && p != [] && j < |cards| && cards[j] == p[|p| - 1]
    ensures multiset(p[..|p| - 1]) == multiset(cards[..j] + cards[j + 1..])
  {
    var x := cards[j];
    assert p == p[..|p| - 1] + [x];
    assert cards == cards[..j] + [x] + cards[j + 1..];
    assert multiset(p[..|p| - 1]) == multiset(p) - multiset{x};
    assert multiset(cards[..j] + cards[j + 1..]) == multiset(cards) - multiset{x};
  }

  /** Conversely, every rearrangement of the deck is produced by some order:
      reordering by an order is exactly "any permutation". */
  lemma {:induction false} EveryPermutationIsReachable(cards: seq<Card>, p: seq<Card>)
    returns (order: seq<nat>)
    requires multiset(p) == multiset(cards)
    ensures IsOrder(order, |cards|) && Permute(cards, order) == p
    decreases |cards|
  {
    assert |p| == |multiset(p)| == |multiset(cards)| == |cards|;
    if cards == [] {
      order := [];
    } else {
      var x := p[|p| - 1];
      assert x in multiset(cards);
      var j :| 0 <= j < |cards| && cards[j] == x;
      MultisetRemoveAt(p, cards, j);
      var order' := EveryPermutationIsReachable(cards[..j] + cards[j + 1..], p[..|p| - 1]);
      order := Lift(order', j);
      PermuteLift(cards, order', j);
      assert p == p[..|p| - 1] + [x];
    }
  }
}
