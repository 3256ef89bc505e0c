/** The game itself: the `TermFlipGame` object's counters, its current deck, the cards turned
    face up and the mismatch resets still waiting on their timeout, and the handlers that change
    them. The page, its elements and the timers are outside the model; a mismatch reset that the
    source schedules with `setTimeout` is queued here and happens when `ResolveMismatch` is
    called, so every order of clicks and timeouts is a sequence of method calls. */
module Game {
  import opened Wrappers
  import opened Input
  import opened Deck
  import opened Shuffle
  import Theme

  /** The cards held by the pending resets, oldest first. */
  function Flat(pending: seq<(Card, Card)>): (r: seq<Card>)
    ensures |r| == 2 * |pending|
  {
    if pending == [] then [] else [pending[0].0, pending[0].1] + Flat(pending[1..])
  }

  /** Queuing a reset adds its two cards at the end. */
  lemma {:induction false} FlatAppend(pending: seq<(Card, Card)>, a: Card, b: Card)
    ensures Flat(pending + [(a, b)]) == Flat(pending) + [a, b]
  {
    if pending != [] {
      assert (pending + [(a, b)])[1..] == pending[1..] + [(a, b)];
      FlatAppend(pending[1..], a, b);
    }
  }

  /** A card waits for a reset exactly when it is one of the two cards of a pending reset. */
  lemma {:induction false} FlatMember(pending: seq<(Card, Card)>, c: Card)
    ensures c in Flat(pending) <==> exists k :: 0 <= k < |pending| && (pending[k].0 == c || pending[k].1 == c)
  {
    if pending != [] {
      FlatMember(pending[1..], c);
      if exists k :: 0 <= k < |pending| && (pending[k].0 == c || pending[k].1 == c) {
        var k :| 0 <= k < |pending| && (pending[k].0 == c || pending[k].1 == c);
        if k > 0 {
          assert pending[1..][k - 1] == pending[k];
        }
      }
      if exists k :: 0 <= k < |pending[1..]| && (pending[1..][k].0 == c || pending[1..][k].1 == c) {
        var k :| 0 <= k < |pending[1..]| && (pending[1..][k].0 == c || pending[1..][k].1 == c);
        assert pending[k + 1] == pending[1..][k];
      }
    }
  }

  /** The oldest reset's cards are two different cards, neither of which waits again later. */
  lemma DistinctFront(a: Card, b: Card, rest: seq<Card>)
    requires Distinct([a, b] + rest)
    ensures a != b && a !in rest && b !in rest && Distinct(rest)
  {
    var s := [a, b] + rest;
    assert s[0] == a && s[1] == b;
    assert forall k :: 0 <= k < |rest| ==> rest[k] == s[k + 2];
  }

  /** The cards for the pairs, in the order they are pushed, in a new array. */
  method NewBoard(pairs: seq<Pair>) returns (board: array<Card>)
    ensures fresh(board) && Faces(board[..]) == DeckSpec(pairs)
    ensures forall c :: c in board[..] ==> fresh(c) && !c.flipped && !c.matched
  {
    var deck := BuildDeck(pairs);
    board := new Card[|deck|](i requires 0 <= i < |deck| => deck[i]);
    assert board[..] == deck;
  }

  /** Elements a permutation holds are elements of the original. */
  lemma SameMembers<T>(s: seq<T>, t: seq<T>)
    requires multiset(t) == multiset(s)
    ensures forall x :: x in t ==> x in s
  {
    forall x | x in t ensures x in s {
      assert x in multiset(t);
    }
  }

  /** The board shows the deck of the pairs in the order of some shuffle. */
  ghost predicate DealtFrom(board: seq<Face>, pairs: seq<Pair>) {
    exists draws :: ValidDraws(Turns(2 * |pairs|), draws) && board == FisherYates(DeckSpec(pairs), draws)
  }

  /** A dealt board holds every card of the deck once: its faces are a permutation of the deck. */
  lemma DealtPermutes(board: seq<Face>, pairs: seq<Pair>)
    requires DealtFrom(board, pairs)
    ensures |board| == 2 * |pairs|
    ensures multiset(board) == multiset(DeckSpec(pairs))
  {
    var draws :| ValidDraws(Turns(2 * |pairs|), draws) && board == FisherYates(DeckSpec(pairs), draws);
    FisherYatesPermutes(DeckSpec(pairs), draws);
  }

  /** Every arrangement of the deck can be dealt. */
  lemma AnyOrderDealt(board: seq<Face>, pairs: seq<Pair>)
    requires multiset(board) == multiset(DeckSpec(pairs))
    ensures DealtFrom(board, pairs)
  {
    FisherYatesReaches(DeckSpec(pairs), board);
  }

  /** Shuffling the new deck deals it: the faces are dealt from the pairs, and the cards are the
      same cards. */
  lemma ShuffleDeals(before: seq<Card>, after: seq<Card>, pairs: seq<Pair>, draws: seq<nat>)
    requires Faces(before) == DeckSpec(pairs)
    requires ValidDraws(Turns(|before|), draws) && after == FisherYates(before, draws)
    ensures DealtFrom(Faces(after), pairs)
    ensures forall c :: c in after ==> c in before
  {
    ShuffledFaces(before, draws);
    FisherYatesPermutes(before, draws);
    SameMembers(before, after);
  }

  /** The deal in `parseAndStartGame` (TermFlip/js/app.js:186-196): new cards for the pairs,
      shuffled. */
  method Deal(pairs: seq<Pair>) returns (board: array<Card>)
    ensures fresh(board) && DealtFrom(Faces(board[..]), pairs)
    ensures forall c :: c in board[..] ==> fresh(c) && !c.flipped && !c.matched
  {
    board := NewBoard(pairs);
    ghost var before := board[..];
    assert ValidDraws(Turns(board.Length), seq(Turns(board.Length), k => 0));
    var draws: seq<nat> :| ValidDraws(Turns(board.Length), draws);
    forall c | c in before ensures allocated(c) {
      var i :| 0 <= i < |before| && before[i] == c;
    }
    ShuffleArray(board, draws);
    ShuffleDeals(before, board[..], pairs, draws);
    forall c | c in board[..] ensures fresh(c) && !c.flipped && !c.matched {
      assert c in before;
    }
  }

  /** The test `this.matchedPairs === this.cards.length / 2`, with JavaScript's division of
      numbers. */
  predicate AllPairsMatched(matchedPairs: nat, cardCount: nat)
    ensures AllPairsMatched(matchedPairs, cardCount) <==> 2 * matchedPairs == cardCount
  {
    matchedPairs as real == cardCount as real / 2.0
  }

  /** The game is over exactly when twice the matched pairs is the number of cards; a deck with an
      odd number of cards is never completed. */
  lemma AllPairsMatchedMeans(matchedPairs: nat, cardCount: nat)
    ensures AllPairsMatched(matchedPairs, cardCount) <==> 2 * matchedPairs == cardCount
    ensures cardCount % 2 == 1 ==> !AllPairsMatched(matchedPairs, cardCount)
  {
    if AllPairsMatched(matchedPairs, cardCount) {
      assert (2 * matchedPairs) as real == cardCount as real;
    }
  }

  class TermFlipGame {
    var cards: array<Card>
    var flippedCards: seq<Card>
    var moves: nat
    var matchedPairs: nat
    /** The cards of each mismatch whose reset timeout has not fired yet, oldest first. */
    var pendingResets: seq<(Card, Card)>
    var currentTheme: string

    /** The cards waiting for a reset stay face up and unmatched, and none waits twice. */
    ghost predicate PendingFaceUp()
      reads this, Flat(pendingResets)
    {
      (forall c :: c in Flat(pendingResets) ==> c.flipped && !c.matched) &&
      Distinct(Flat(pendingResets))
    }

    /** What every handler keeps: at most two cards are face up for comparison, they are face up
        and unmatched, a lone face-up card is not waiting for a reset, and two face-up cards are
        the mismatch scheduled last. */
    ghost predicate Valid()
      reads this, flippedCards, Flat(pendingResets)
    {
      PendingFaceUp() &&
      |flippedCards| <= 2 &&
      (forall c :: c in flippedCards ==> c.flipped && !c.matched) &&
      (|flippedCards| == 1 ==> flippedCards[0] !in Flat(pendingResets)) &&
      (|flippedCards| == 2 ==>
        pendingResets != [] && pendingResets[|pendingResets| - 1] == (flippedCards[0], flippedCards[1]))
    }

    /** The constructor (TermFlip/js/app.js:6-37): no cards, no moves, and the stored theme. */
    constructor(stored: Option<string>)
      ensures Valid()
      ensures cards.Length == 0 && flippedCards == [] && pendingResets == []
      ensures moves == 0 && matchedPairs == 0
      ensures currentTheme == Theme.InitialTheme(stored)
    {
      cards := new Card[0];
      flippedCards := [];
      moves := 0;
      matchedPairs := 0;
      pendingResets := [];
      currentTheme := Theme.InitialTheme(stored);
    }

    /** `checkMatch` (TermFlip/js/app.js:137-158), called with the two face-up cards. A match
        marks both, counts the pair and clears the face-up list, and reports whether the game is
        over (`endGame`); a mismatch schedules the reset of both cards and leaves them face up. */
    method CheckMatch() returns (completed: bool)
      requires PendingFaceUp()
      requires |flippedCards| == 2 && flippedCards[0] != flippedCards[1]
      requires forall c :: c in flippedCards ==> c.flipped && !c.matched && c !in Flat(pendingResets)
      modifies this, flippedCards
      ensures Valid()
      ensures cards == old(cards) && moves == old(moves) && currentTheme == old(currentTheme)
      ensures var first, second := old(flippedCards[0]), old(flippedCards[1]);
        first.flipped && second.flipped &&
        if IsMatch(first.face, second.face) then
          first.matched && second.matched &&
          matchedPairs == old(matchedPairs) + 1 && flippedCards == [] &&
          pendingResets == old(pendingResets) &&
          (completed <==> AllPairsMatched(matchedPairs, cards.Length))
        else
          !first.matched && !second.matched &&
          matchedPairs == old(matchedPairs) && flippedCards == old(flippedCards) &&
          pendingResets == old(pendingResets) + [(first, second)] && !completed
    {
      var first, second := flippedCards[0], flippedCards[1];
      if IsMatch(first.face, second.face) {
        first.matched := true;
        second.matched := true;
        matchedPairs := matchedPairs + 1;
        flippedCards := [];
        completed := AllPairsMatched(matchedPairs, cards.Length);
      } else {
        FlatAppend(pendingResets, first, second);
        DistinctBack(Flat(pendingResets), first, second);
        pendingResets := pendingResets + [(first, second)];
        completed := false;
      }
    }

    /** `handleCardClick` (TermFlip/js/app.js:118-135). A click does nothing while two cards are
        face up or on a card that is face up or matched. Otherwise the card turns face up; when
        it is the second, the click counts as a move and the two cards are compared. */
    method HandleCardClick(card: Card) returns (completed: bool)
      requires Valid()
      modifies this, card, flippedCards
      ensures Valid()
      ensures cards == old(cards) && currentTheme == old(currentTheme)
      ensures old(|flippedCards| >= 2 || card.flipped || card.matched) ==>
        unchanged(this, card) && unchanged(old(flippedCards)) && !completed
      ensures moves == old(moves) + if old(|flippedCards| == 1 && !card.flipped && !card.matched) then 1 else 0
      ensures old(|flippedCards| == 0 && !card.flipped && !card.matched) ==>
        flippedCards == [card] && card.flipped && !card.matched &&
        matchedPairs == old(matchedPairs) && pendingResets == old(pendingResets) && !completed
      ensures old(|flippedCards| == 1 && !card.flipped && !card.matched) ==>
        var first := old(flippedCards[0]);
        card.flipped && first.flipped &&
        if IsMatch(first.face, card.face) then
          first.matched && card.matched &&
          matchedPairs == old(matchedPairs) + 1 && flippedCards == [] &&
          pendingResets == old(pendingResets) &&
          (completed <==> AllPairsMatched(matchedPairs, cards.Length))
        else
          !first.matched && !card.matched &&
          matchedPairs == old(matchedPairs) && flippedCards == [first, card] &&
          pendingResets == old(pendingResets) + [(first, card)] && !completed
    {
      if |flippedCards| >= 2 || card.flipped || card.matched {
        return false;
      }
      card.flipped := true;
      flippedCards := flippedCards + [card];
      if |flippedCards| == 2 {
        moves := moves + 1;
        completed := CheckMatch();
      } else {
        completed := false;
      }
    }

    /** The timeout scheduled by a mismatch (TermFlip/js/app.js:152-156), for the oldest
        mismatch still waiting: both its cards turn face down and the face-up list is emptied,
        whatever it holds by then. */
    method ResolveMismatch()
      requires Valid() && pendingResets != []
      modifies this, pendingResets[0].0, pendingResets[0].1
      ensures Valid()
      ensures var (first, second) := old(pendingResets[0]);
        !first.flipped && !second.flipped && !first.matched && !second.matched
      ensures pendingResets == old(pendingResets[1..]) && flippedCards == []
      ensures cards == old(cards) && moves == old(moves) && matchedPairs == old(matchedPairs)
      ensures currentTheme == old(currentTheme)
    {
      var (first, second) := pendingResets[0];
      ghost var rest := Flat(pendingResets[1..]);
      assert Flat(pendingResets) == [first, second] + rest;
      DistinctFront(first, second, rest);
      assert forall c :: c in rest ==> c in Flat(pendingResets);
      first.flipped := false;
      second.flipped := false;
      pendingResets := pendingResets[1..];
      flippedCards := [];
    }

    /** `restartGame` (TermFlip/js/app.js:218-226): the same cards are shuffled in place and the
        counters and the face-up list are cleared. The cards keep their face-up and matched
        state, and resets still waiting stay scheduled. */
    method RestartGame()
      requires Valid()
      modifies this, cards
      ensures Valid()
      ensures cards == old(cards)
      ensures exists draws :: ValidDraws(Turns(cards.Length), draws) && cards[..] == FisherYates(old(cards[..]), draws)
      ensures multiset(cards[..]) == multiset(old(cards[..]))
      ensures moves == 0 && matchedPairs == 0 && flippedCards == []
      ensures pendingResets == old(pendingResets) && currentTheme == old(currentTheme)
    {
      assert ValidDraws(Turns(cards.Length), seq(Turns(cards.Length), k => 0));
      var draws: seq<nat> :| ValidDraws(Turns(cards.Length), draws);
      forall c | c in Flat(pendingResets) ensures allocated(c) {
        FlatMember(pendingResets, c);
      }
      ShuffleArray(cards, draws);
      FisherYatesPermutes(old(cards[..]), draws);
      matchedPairs := 0;
      moves := 0;
      flippedCards := [];
    }

    /** The start of a game from accepted pairs (TermFlip/js/app.js:186-197): the pairs become a
        new deck, which is shuffled, and the counters are cleared. The face-up list and the
        resets still waiting are left as they are. */
    method DealNewGame(pairs: seq<Pair>)
      requires Valid()
      modifies this
      ensures Valid()
      ensures fresh(cards) && DealtFrom(Faces(cards[..]), pairs)
      ensures forall c :: c in cards[..] ==> fresh(c) && !c.flipped && !c.matched
      ensures moves == 0 && matchedPairs == 0
      ensures flippedCards == old(flippedCards) && pendingResets == old(pendingResets)
      ensures currentTheme == old(currentTheme)
    {
      forall c | c in Flat(pendingResets) ensures allocated(c) {
        FlatMember(pendingResets, c);
      }
      var board := Deal(pairs);
      cards := board;
      matchedPairs := 0;
      moves := 0;
    }

    /** `parseAndStartGame` (TermFlip/js/app.js:182-198): nothing happens unless the input is
        accepted; an accepted input always parses, and its pairs start a game. */
    method ParseAndStartGame(raw: string, json: JsonOracle) returns (started: bool)
      requires Valid()
      modifies this
      ensures Valid()
      ensures started == ValidateInput(raw, json).valid
      ensures !started ==> unchanged(this)
      ensures started ==> Parsed(raw, json).Some?
      ensures started ==>
        fresh(cards) && DealtFrom(Faces(cards[..]), Parsed(raw, json).value) &&
        (forall c :: c in cards[..] ==> fresh(c) && !c.flipped && !c.matched) &&
        moves == 0 && matchedPairs == 0 &&
        flippedCards == old(flippedCards) && pendingResets == old(pendingResets) &&
        currentTheme == old(currentTheme)
    {
      if !ValidateInput(raw, json).valid {
        return false;
      }
      AcceptedParses(raw, json);
      forall c | c in Flat(pendingResets) ensures allocated(c) {
        FlatMember(pendingResets, c);
      }
      var parsed := ParseInput(raw, json);
      DealNewGame(parsed.value);
      started := true;
    }

    /** `toggleTheme` (TermFlip/js/app.js:254-259): the theme flips and nothing else changes. */
    method ToggleTheme()
      requires Valid()
      modifies this
      ensures Valid()
      ensures currentTheme == Theme.Toggled(old(currentTheme))
      ensures cards == old(cards) && flippedCards == old(flippedCards) && pendingResets == old(pendingResets)
      ensures moves == old(moves) && matchedPairs == old(matchedPairs)
    {
      currentTheme := Theme.Toggled(currentTheme);
    }
  }
}
