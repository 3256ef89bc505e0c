/** The cards of a game: `createCard` and the loop of `parseAndStartGame` that turns the pairs
    into a deck, one term card and one definition card per pair, tagged with the pair's index. */
module Deck {
  import opened Input
  import Shuffle

  /** `card.dataset.type`: which side of its pair a card shows. */
  datatype Kind = Term | Definition

  /** What a card carries for its whole life: the text on its front, its side and its pair's
      index (`card.dataset.pairId`). */
  datatype Face = Face(content: string, kind: Kind, pairId: nat)

  /** A card on the board. The game keeps references to cards (in `flippedCards` and in pending
      timeouts), so a card is an object: its face is fixed, its two classes change. */
  class Card {
    const face: Face
    var flipped: bool
    var matched: bool

    /** `createCard`: a new card shows its back and is not matched. */
    constructor(face: Face)
      ensures this.face == face && !flipped && !matched
    {
      this.face := face;
      flipped := false;
      matched := false;
    }
  }

  /** The comparison in `checkMatch`: the same pair and different sides. The source compares the
      `pairId` attributes as strings; the decimal text of an index identifies the index, so
      comparing the indices is the same test. */
  predicate IsMatch(a: Face, b: Face)
    ensures IsMatch(a, b) ==> a != b
  {
    a.pairId == b.pairId && a.kind != b.kind
  }

  /** Matching does not depend on which of the two cards was turned first. */
  lemma MatchSymmetric(a: Face, b: Face)
    ensures IsMatch(a, b) <==> IsMatch(b, a)
    ensures !IsMatch(a, a)
  {
  }

  /** The faces in the order the loop pushes them: for pair `i`, its term card, then its
      definition card, both tagged `i`. */
  function DeckSpec(pairs: seq<Pair>): (r: seq<Face>)
    ensures |r| == 2 * |pairs|
  {
    if pairs == [] then []
    else
      var n := |pairs| - 1;
      DeckSpec(pairs[..n]) + [Face(pairs[n].term, Term, n), Face(pairs[n].definition, Definition, n)]
  }

  /** Card `2i` is the term of pair `i` and card `2i + 1` its definition. */
  lemma {:induction false} DeckSpecAt(pairs: seq<Pair>, i: nat)
    requires i < |pairs|
    ensures DeckSpec(pairs)[2 * i] == Face(pairs[i].term, Term, i)
    ensures DeckSpec(pairs)[2 * i + 1] == Face(pairs[i].definition, Definition, i)
    decreases |pairs|
  {
    var n := |pairs| - 1;
    if i < n {
      DeckSpecAt(pairs[..n], i);
      assert pairs[..n][i] == pairs[i];
    }
  }

  /** Where the card of pair `p` showing `kind` lies in the unshuffled deck. */
  function Slot(p: nat, kind: Kind): nat {
    if kind == Term then 2 * p else 2 * p + 1
  }

  /** Each pair index below the number of pairs appears exactly once per side, and no other index
      appears. */
  lemma DeckTagsOnce(pairs: seq<Pair>, p: nat, kind: Kind)
    ensures forall k :: 0 <= k < |DeckSpec(pairs)| ==>
      (DeckSpec(pairs)[k].pairId == p && DeckSpec(pairs)[k].kind == kind <==> k == Slot(p, kind))
    ensures p < |pairs| ==> DeckSpec(pairs)[Slot(p, kind)].pairId == p && DeckSpec(pairs)[Slot(p, kind)].kind == kind
  {
    var d := DeckSpec(pairs);
    forall k | 0 <= k < |d| ensures d[k].pairId == p && d[k].kind == kind <==> k == Slot(p, kind) {
      DeckSpecAt(pairs, k / 2);
      HalfParity(k);
    }
    if p < |pairs| {
      DeckSpecAt(pairs, p);
    }
  }

  /** The card a deck position is matched with: its neighbour in the same pair. */
  function Partner(k: nat): nat {
    if k % 2 == 0 then k + 1 else k - 1
  }

  /** Two positions of the unshuffled deck match exactly when they are the two cards of one pair. */
  lemma MatchPartners(pairs: seq<Pair>, k: nat, l: nat)
    requires k < |DeckSpec(pairs)| && l < |DeckSpec(pairs)|
    ensures IsMatch(DeckSpec(pairs)[k], DeckSpec(pairs)[l]) <==> l == Partner(k)
  {
    DeckSpecAt(pairs, k / 2);
    DeckSpecAt(pairs, l / 2);
    HalfParity(k);
    HalfParity(l);
  }

  lemma HalfParity(k: nat)
    ensures k % 2 == 0 ==> k == 2 * (k / 2)
    ensures k % 2 == 1 ==> k == 2 * (k / 2) + 1
    ensures Partner(k) / 2 == k / 2 && Partner(k) % 2 != k % 2
  {
  }

  /** Whatever order the deck is dealt in, every card has its matching card on the board, at
      another position. */
  lemma EveryCardHasPartner(pairs: seq<Pair>, board: seq<Face>, k: nat)
    requires multiset(board) == multiset(DeckSpec(pairs))
    requires k < |board|
    ensures exists l :: 0 <= l < |board| && l != k && IsMatch(board[k], board[l])
  {
    var d := DeckSpec(pairs);
    var i := SamePlace(board, d, k);
    HalfParity(i);
    var partner := Partner(i);
    assert partner < |d|;
    MatchPartners(pairs, i, partner);
    var l := SamePlace(d, board, partner);
    assert IsMatch(board[k], board[l]);
  }

  /** An element of one permutation is found at some position of the other. */
  lemma SamePlace<T>(s: seq<T>, t: seq<T>, k: nat) returns (l: nat)
    requires multiset(s) == multiset(t) && k < |s|
    ensures l < |t| && t[l] == s[k]
  {
    assert s[k] in multiset(s);
    l :| 0 <= l < |t| && t[l] == s[k];
  }

  /** The faces of a sequence of cards, in order. */
  function Faces(cards: seq<Card>): (r: seq<Face>)
    ensures |r| == |cards|
    ensures forall k :: 0 <= k < |r| ==> r[k] == cards[k].face
  {
    if cards == [] then [] else [cards[0].face] + Faces(cards[1..])
  }

  /** The faces follow their cards through a swap. */
  lemma FacesSwap(cards: seq<Card>, i: nat, j: nat)
    requires i < |cards| && j < |cards|
    ensures Faces(Shuffle.Swap(cards, i, j)) == Shuffle.Swap(Faces(cards), i, j)
  {
    var swapped := cards[i := cards[j]][j := cards[i]];
    var faces := Faces(cards);
    var left := Faces(swapped);
    var right := faces[i := faces[j]][j := faces[i]];
    forall k | 0 <= k < |left| ensures left[k] == right[k] {
      if k == j {
        assert left[k] == cards[i].face;
      } else if k == i {
        assert left[k] == cards[j].face;
      } else {
        assert left[k] == cards[k].face;
      }
    }
    assert left == right;
  }

  /** Shuffling the cards shuffles their faces the same way. */
  lemma {:induction false} FacesPass(cards: seq<Card>, draws: seq<nat>, i: nat)
    requires i < |cards| && Shuffle.ValidDraws(i, draws)
    ensures Faces(Shuffle.Pass(cards, draws, i)) == Shuffle.Pass(Faces(cards), draws, i)
    decreases i
  {
    if i > 0 {
      FacesSwap(cards, i, draws[0]);
      Shuffle.DrawsTail(draws, i);
      FacesPass(Shuffle.Swap(cards, i, draws[0]), draws[1..], i - 1);
    }
  }

  /** After a shuffle the board holds the same faces as before, each as often. */
  lemma ShuffledFaces(cards: seq<Card>, draws: seq<nat>)
    requires Shuffle.ValidDraws(Shuffle.Turns(|cards|), draws)
    ensures Faces(Shuffle.FisherYates(cards, draws)) == Shuffle.FisherYates(Faces(cards), draws)
    ensures multiset(Faces(Shuffle.FisherYates(cards, draws))) == multiset(Faces(cards))
  {
    if |cards| > 0 {
      FacesPass(cards, draws, |cards| - 1);
    }
    Shuffle.FisherYatesPermutes(Faces(cards), draws);
  }

  /** No card occurs twice. */
  predicate Distinct(cards: seq<Card>) {
    forall i, j :: 0 <= i < j < |cards| ==> cards[i] != cards[j]
  }

  /** Two more different cards, neither already present, keep the cards distinct. */
  lemma DistinctBack(rest: seq<Card>, a: Card, b: Card)
    requires Distinct(rest) && a != b && a !in rest && b !in rest
    ensures Distinct(rest + [a, b])
  {
    var s := rest + [a, b];
    forall i, j | 0 <= i < j < |s| ensures s[i] != s[j] {
      if j >= |rest| {
        assert s[j] == a || s[j] == b;
        if i < |rest| {
          assert s[i] == rest[i];
        }
      } else {
        assert s[i] == rest[i] && s[j] == rest[j];
      }
    }
  }

  /** Faces of two more cards come after the faces already there. */
  lemma FacesAppend(cards: seq<Card>, a: Card, b: Card)
    ensures Faces(cards + [a, b]) == Faces(cards) + [a.face, b.face]
  {
    var s := cards + [a, b];
    assert forall k :: 0 <= k < |s| ==> Faces(s)[k] == (Faces(cards) + [a.face, b.face])[k];
  }

  /** One more pair adds its term and definition faces at the end. */
  lemma DeckSpecStep(pairs: seq<Pair>, index: nat)
    requires index < |pairs|
    ensures DeckSpec(pairs[..index + 1]) ==
      DeckSpec(pairs[..index]) + [Face(pairs[index].term, Term, index), Face(pairs[index].definition, Definition, index)]
  {
    assert pairs[..index + 1][..index] == pairs[..index];
  }

  /** The loop of `parseAndStartGame` (TermFlip/js/app.js:191-194): for each pair, in order, a new
      term card and a new definition card tagged with the pair's index. */
  method BuildDeck(pairs: seq<Pair>) returns (deck: seq<Card>)
    ensures Faces(deck) == DeckSpec(pairs)
    ensures Distinct(deck)
    ensures forall c :: c in deck ==> fresh(c) && !c.flipped && !c.matched
  {
    deck := [];
    var index := 0;
    while index < |pairs|
      invariant index <= |pairs|
      invariant Faces(deck) == DeckSpec(pairs[..index])
      invariant Distinct(deck)
      invariant forall c :: c in deck ==> fresh(c) && !c.flipped && !c.matched
    {
      var term := new Card(Face(pairs[index].term, Term, index));
      var definition := new Card(Face(pairs[index].definition, Definition, index));
      DeckSpecStep(pairs, index);
      FacesAppend(deck, term, definition);
      DistinctBack(deck, term, definition);
      deck := deck + [term, definition];
      index := index + 1;
    }
    assert pairs[..index] == pairs;
  }
}
