/** The study statistics the app derives from the deck on every render:
    how many cards are known, unknown and unanswered, and the score. */
module Statistics {
  import opened Deck
  import Rounding

  /** The number of cards whose status is `status` (`cards.filter(...).length`). */
  function Count(cards: seq<Card>, status: Status): (r: nat)
    ensures r <= |cards|
    ensures r == 0 <==> forall j :: 0 <= j < |cards| ==> cards[j].known != status
    ensures r == |cards| <==> forall j :: 0 <= j < |cards| ==> cards[j].known == status
  {
    if cards == [] then 0
    else (if cards[0].known == status then 1 else 0) + Count(cards[1..], status)
  }

  /** `knownCount`: at most the deck size, and 0 exactly when no card is known. */
  function KnownCount(cards: seq<Card>): (r: nat)
    ensures r <= |cards|
    ensures r == 0 <==> forall j :: 0 <= j < |cards| ==> cards[j].known != Known
  {
    Count(cards, Known)
  }

  /** `unknownCount`: at most the deck size, and 0 exactly when no card is unknown. */
  function UnknownCount(cards: seq<Card>): (r: nat)
    ensures r <= |cards|
    ensures r == 0 <==> forall j :: 0 <= j < |cards| ==> cards[j].known != Unknown
  {
    Count(cards, Unknown)
  }

  /** `unansweredCount`: at most the deck size, and the deck size exactly when
      no card has been answered. */
  function UnansweredCount(cards: seq<Card>): (r: nat)
    ensures r <= |cards|
    ensures r == |cards| <==> forall j :: 0 <= j < |cards| ==> cards[j].known == Unanswered
  {
    Count(cards, Unanswered)
  }

  /** The score for `known` known and `unknown` unknown cards: the share of
      answered cards that are known, as a rounded percentage, and 0 while
      nothing is answered. */
  function Score(known: nat, unknown: nat): (r: nat)
    ensures r <= 100
    ensures known + unknown == 0 ==> r == 0
    ensures known + unknown > 0 ==>
      2 * (known + unknown) * r <= 200 * known + (known + unknown) < 2 * (known + unknown) * (r + 1)
  {
    var answered := known + unknown;
    if answered > 0 then
      Rounding.RoundedPercentAtMost100(known, answered);
      Rounding.RoundedPercent(known, answered)
    else 0
  }

  /** The score of a deck (`percentageKnown`): a percentage, and 0 while
      every card is still unanswered. */
  function PercentageKnown(cards: seq<Card>): (r: nat)
    ensures r <= 100
    ensures UnansweredCount(cards) == |cards| ==> r == 0
  {
    CountsPartitionDeck(cards);
    Score(KnownCount(cards), UnknownCount(cards))
  }

  // ----- properties -----

  /** Counting distributes over joining two parts of a deck. */
  lemma {:induction false} CountAppend(a: seq<Card>, b: seq<Card>, status: Status)
    ensures Count(a + b, status) == Count(a, status) + Count(b, status)
    decreases |a|
  {
    if a == [] {
      assert a + b == b;
    } else {
      assert (a + b)[1..] == a[1..] + b;
      CountAppend(a[1..], b, status);
    }
  }

  /** The three counts partition the deck: every card is in exactly one of them. */
  lemma {:induction false} CountsPartitionDeck(cards: seq<Card>)
    ensures KnownCount(cards) + UnknownCount(cards) + UnansweredCount(cards) == |cards|
    decreases |cards|
  {
    if cards != [] {
      CountsPartitionDeck(cards[1..]);
    }
  }

  /** Taking the card at `j` out of a deck lowers exactly its own count by one. */
  lemma CountRemove(b: seq<Card>, j: nat, status: Status)
    requires j < |b|
    ensures Count(b, status)
         == Count(b[..j] + b[j + 1..], status) + (if b[j].known == status then 1 else 0)
  {
    assert b == b[..j] + ([b[j]] + b[j + 1..]);
    CountAppend(b[..j], [b[j]] + b[j + 1..], status);
    CountAppend(b[..j], b[j + 1..], status);
  }

  /** Taking the same card out of two decks with the same cards leaves two
      decks with the same cards. */
  lemma MultisetRemove(a: seq<Card>, b: seq<Card>, j: nat)
    requires multiset(a) == multiset(b) && a != [] && j < |b| && b[j] == a[0]
    ensures multiset(a[1..]) == multiset(b[..j] + b[j + 1..])
  {
    assert a == [a[0]] + a[1..];
    assert b == b[..j] + [b[j]] + b[j + 1..];
    assert multiset(a[1..]) == multiset(a) - multiset{a[0]};
    assert multiset(b[..j] + b[j + 1..]) == multiset(b) - multiset{b[j]};
  }

  /** Counts depend only on which cards the deck holds, not on their order. */
  lemma {:induction false} CountOfPermutation(a: seq<Card>, b: seq<Card>, status: Status)
    requires multiset(a) == multiset(b)
    ensures Count(a, status) == Count(b, status)
    decreases |a|
  {
    if a == [] {
      assert |b| == |multiset(b)| == 0;
    } else {
      assert a[0] in multiset(b);
      var j :| 0 <= j < |b| && b[j] == a[0];
      MultisetRemove(a, b, j);
      CountOfPermutation(a[1..], b[..j] + b[j + 1..], status);
      CountRemove(b, j, status);
    }
  }

  /** Marking the card at `index` moves exactly that card from its old status
      to the new one and leaves every other count as it was. */
  lemma {:induction false} CountAfterMark(cards: seq<Card>, index: nat, newStatus: Status, status: Status)
    requires index < |cards|
    ensures Count(MarkAt(cards, index, newStatus), status)
         == Count(cards, status)
            - (if cards[index].known == status then 1 else 0)
            + (if newStatus == status then 1 else 0)
    decreases |cards|
  {
    var marked := MarkAt(cards, index, newStatus);
    if index == 0 {
      assert marked[1..] == cards[1..];
    } else {
      assert marked[1..] == MarkAt(cards[1..], index - 1, newStatus);
      CountAfterMark(cards[1..], index - 1, newStatus, status);
    }
  }

  /** After a reset every card is unanswered. */
  lemma ResetCounts(cards: seq<Card>)
    ensures UnansweredCount(ResetAll(cards)) == |cards|
    ensures KnownCount(ResetAll(cards)) == 0 && UnknownCount(ResetAll(cards)) == 0
    ensures PercentageKnown(ResetAll(cards)) == 0
  {
  }

  /** Reordering changes no count and not the score. */
  lemma PermuteKeepsStatistics(cards: seq<Card>, order: seq<nat>, status: Status)
    requires IsOrder(order, |cards|)
    ensures Count(Permute(cards, order), status) == Count(cards, status)
    ensures PercentageKnown(Permute(cards, order)) == PercentageKnown(cards)
  {
    var shuffled := Permute(cards, order);
    PermuteIsPermutation(cards, order);
    CountOfPermutation(shuffled, cards, Known);
    CountOfPermutation(shuffled, cards, Unknown);
    CountOfPermutation(shuffled, cards, status);
  }

  /** With something known and nothing unknown the score is 100. */
  lemma PercentageKnownAllKnown(cards: seq<Card>)
    requires KnownCount(cards) > 0 && UnknownCount(cards) == 0
    ensures PercentageKnown(cards) == 100
  {
    Rounding.RoundedPercentUnique(KnownCount(cards), KnownCount(cards), 100);
  }

  /** With something unknown and nothing known the score is 0. */
  lemma PercentageKnownNoneKnown(cards: seq<Card>)
    requires KnownCount(cards) == 0 && UnknownCount(cards) > 0
    ensures PercentageKnown(cards) == 0
  {
    Rounding.RoundedPercentOfNothing(UnknownCount(cards));
  }
}
