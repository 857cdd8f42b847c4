/**
 * The shared table: the grid of slots (slot to card and card to slot), every player's tokens and
 * the draw pile (`deck`).  Each method corresponds to one `synchronized` method of the table, so
 * it runs atomically; the artificial table delay and the display calls are not modelled.
 */
module Tables {
  import opened Wrappers
  import opened Seqs

  /** The runtime exceptions the table throws. `EmptyDeck` is `deck.get(0)` on an empty deck. */
  datatype TableError = CardNotInDeck | NoSuchSlot | SlotOccupied | EmptyDeck

  /** Slot to card (`g`) and card to slot (`c`) are mutual inverses: slot x holds card y iff card y sits in slot x. */
  ghost predicate Inverse(g: seq<Option<nat>>, c: seq<Option<nat>>) {
    && (forall x :: 0 <= x < |g| && g[x].Some? ==> g[x].value < |c| && c[g[x].value] == Some(x))
    && (forall y :: 0 <= y < |c| && c[y].Some? ==> c[y].value < |g| && g[c[y].value] == Some(y))
  }

  /** The slots that hold a card. */
  function Occupied(g: seq<Option<nat>>): set<nat> {
    set x: nat | x < |g| && g[x].Some?
  }

  /** The cards that lie on the grid. */
  function GridCards(g: seq<Option<nat>>): set<nat> {
    set x | 0 <= x < |g| && g[x].Some? :: g[x].value
  }

  /** The number of non-null entries, counted from the front as `countCards` does. */
  function CountSome(g: seq<Option<nat>>): nat {
    if g == [] then 0 else CountSome(g[..|g| - 1]) + (if g[|g| - 1].Some? then 1 else 0)
  }

  /** The draw pile holds each card once, and only cards that are not on the grid. */
  ghost predicate DeckOk(deck: seq<nat>, c: seq<Option<nat>>) {
    Distinct(deck) && forall i :: 0 <= i < |deck| ==> deck[i] < |c| && c[deck[i]] == None
  }

  /** A player's tokens: distinct occupied slots, at most `featureSize` of them. */
  ghost predicate TokensOk(t: seq<nat>, g: seq<Option<nat>>, featureSize: nat) {
    Distinct(t) && |t| <= featureSize && forall i :: 0 <= i < |t| ==> t[i] < |g| && g[t[i]].Some?
  }

  /** The cards on the grid are in one-to-one correspondence with the occupied slots. */
  lemma GridCardsCount(g: seq<Option<nat>>, c: seq<Option<nat>>)
    requires Inverse(g, c)
    ensures |GridCards(g)| == |Occupied(g)|
  {
    CountBelow(g, c, |g|);
    assert GridCards(g) == CardsBelow(g, |g|);
    assert Occupied(g) == SlotsBelow(g, |g|);
  }

  /** The cards in the first `k` slots. */
  ghost function CardsBelow(g: seq<Option<nat>>, k: nat): set<nat>
    requires k <= |g|
  {
    set x | 0 <= x < k && g[x].Some? :: g[x].value
  }

  /** The occupied slots among the first `k`. */
  ghost function SlotsBelow(g: seq<Option<nat>>, k: nat): set<nat>
    requires k <= |g|
  {
    set x: nat | x < k && g[x].Some?
  }

  lemma {:induction false} CountBelow(g: seq<Option<nat>>, c: seq<Option<nat>>, k: nat)
    requires Inverse(g, c) && k <= |g|
    ensures |CardsBelow(g, k)| == |SlotsBelow(g, k)|
  {
    if k > 0 {
      var j := k - 1;
      CountBelow(g, c, j);
      BelowStep(g, j);
      if g[j].Some? {
        NewCardBelow(g, c, j);
      }
    }
  }

  /** Extending the prefix by slot `j` adds that slot and its card, if it holds one. */
  lemma BelowStep(g: seq<Option<nat>>, j: nat)
    requires j < |g|
    ensures CardsBelow(g, j + 1) == CardsBelow(g, j) + (if g[j].Some? then {g[j].value} else {})
    ensures SlotsBelow(g, j + 1) == SlotsBelow(g, j) + (if g[j].Some? then {j} else {})
  {
  }

  /** A card lies in one slot only, so the card in slot `j` is not in any earlier slot. */
  lemma NewCardBelow(g: seq<Option<nat>>, c: seq<Option<nat>>, j: nat)
    requires Inverse(g, c) && j < |g| && g[j].Some?
    ensures g[j].value !in CardsBelow(g, j) && j !in SlotsBelow(g, j)
  {
    forall x | 0 <= x < j && g[x].Some? ensures g[x].value != g[j].value {
      assert c[g[x].value] == Some(x);
    }
  }

  /** The front-to-back count of non-null entries is the number of occupied slots. */
  lemma {:induction false} CountSomeIsOccupied(g: seq<Option<nat>>)
    ensures CountSome(g) == |Occupied(g)|
  {
    if g != [] {
      var front := g[..|g| - 1];
      CountSomeIsOccupied(front);
      if g[|g| - 1].Some? {
        assert Occupied(g) == Occupied(front) + {|g| - 1};
      } else {
        assert Occupied(g) == Occupied(front);
      }
    }
  }

  /** Putting card `y` in the empty slot `slot` adds exactly `y` to the cards on the grid. */
  lemma GridCardsPlace(g: seq<Option<nat>>, slot: nat, y: nat)
    requires slot < |g| && g[slot] == None
    ensures GridCards(g[slot := Some(y)]) == GridCards(g) + {y}
  {
    var g' := g[slot := Some(y)];
    forall z | z in GridCards(g') ensures z in GridCards(g) + {y} {
      var x :| 0 <= x < |g'| && g'[x].Some? && g'[x].value == z;
      if x != slot {
        assert g[x] == g'[x];
      }
    }
    forall z | z in GridCards(g) ensures z in GridCards(g') {
      var x :| 0 <= x < |g| && g[x].Some? && g[x].value == z;
      assert g'[x] == g[x];
    }
    assert g'[slot] == Some(y);
  }

  /** Emptying a slot keeps the two maps inverse and the draw pile off the grid. */
  lemma ClearSlotKeeps(g: seq<Option<nat>>, c: seq<Option<nat>>, deck: seq<nat>, slot: nat)
    requires Inverse(g, c) && DeckOk(deck, c) && slot < |g|
    ensures var c' := if g[slot].Some? then c[g[slot].value := None] else c;
            Inverse(g[slot := None], c') && DeckOk(deck, c')
  {
  }

  /** Tokens off `slot` stay legal once that slot is emptied. */
  lemma TokensOffSlot(t: seq<nat>, g: seq<Option<nat>>, featureSize: nat, slot: nat)
    requires TokensOk(t, g, featureSize) && slot < |g| && slot !in Elems(t)
    ensures TokensOk(t, g[slot := None], featureSize)
  {
    forall k | 0 <= k < |t| ensures t[k] != slot {
      assert t[k] in Elems(t);
    }
  }

  /**
   * Moving card `y` from the draw pile to the empty slot `slot` keeps the maps inverse and the
   * rest of the pile off the grid; the cards in play are unchanged.
   */
  lemma PlaceKeeps(g: seq<Option<nat>>, c: seq<Option<nat>>, deck: seq<nat>, slot: nat, y: nat)
    requires Inverse(g, c) && DeckOk(deck, c) && slot < |g| && g[slot] == None && y in deck
    ensures y < |c| && y !in GridCards(g)
    ensures Inverse(g[slot := Some(y)], c[y := Some(slot)]) && DeckOk(Remove(deck, y), c[y := Some(slot)])
    ensures Elems(Remove(deck, y)) + GridCards(g) + {y} == Elems(deck) + GridCards(g)
  {
    var k :| 0 <= k < |deck| && deck[k] == y;
    OnGridIffPlaced(g, c, y);
    RemoveDistinct(deck, y);
    var d := Remove(deck, y);
    forall i | 0 <= i < |d| ensures d[i] != y && d[i] < |c| && c[d[i]] == None {
      assert d[i] in Elems(d);
      var j :| 0 <= j < |deck| && deck[j] == d[i];
    }
  }

  /** Filling an empty slot keeps every player's tokens legal. */
  lemma TokensOnPlace(t: seq<nat>, g: seq<Option<nat>>, featureSize: nat, slot: nat, y: nat)
    requires TokensOk(t, g, featureSize) && slot < |g|
    ensures TokensOk(t, g[slot := Some(y)], featureSize)
  {
  }

  /** Under the inverse invariant, a card is on the grid exactly when its card-to-slot entry is set. */
  lemma OnGridIffPlaced(g: seq<Option<nat>>, c: seq<Option<nat>>, y: nat)
    requires Inverse(g, c) && y < |c|
    ensures y in GridCards(g) <==> c[y].Some?
  {
    if c[y].Some? {
      assert g[c[y].value] == Some(y);
    }
  }

  class Table {
    /** The number of tokens that make up a claim. */
    const featureSize: nat
    /** Slot to card; `None` is Java's `null`. */
    const slotToCard: array<Option<nat>>
    /** Card to slot; `None` is Java's `null`. */
    const cardToSlot: array<Option<nat>>
    /** The tokens of each player, in the order they were placed. */
    const playerTokens: array<seq<nat>>
    /** The draw pile. */
    var deck: seq<nat>

    /** The class invariant: the two maps are inverses, the deck is off the grid, tokens are legal. */
    ghost predicate Valid()
      reads this, slotToCard, cardToSlot, playerTokens
    {
      && slotToCard != cardToSlot
      && Inverse(slotToCard[..], cardToSlot[..])
      && DeckOk(deck, cardToSlot[..])
      && forall p :: 0 <= p < playerTokens.Length ==> TokensOk(playerTokens[p], slotToCard[..], featureSize)
    }

    /** The cards still in play: those in the draw pile and those on the grid. */
    ghost function Cards(): set<nat>
      reads this, slotToCard
    {
      Elems(deck) + GridCards(slotToCard[..])
    }

    /** The table used in play: an empty grid and a draw pile holding every card once, in some order. */
    constructor (tableSize: nat, deckSize: nat, players: nat, featureSize: nat)
      ensures Valid()
      ensures fresh(slotToCard) && fresh(cardToSlot) && fresh(playerTokens)
      ensures slotToCard.Length == tableSize && cardToSlot.Length == deckSize
      ensures playerTokens.Length == players && this.featureSize == featureSize
      ensures forall x :: 0 <= x < tableSize ==> slotToCard[x] == None
      ensures forall p :: 0 <= p < players ==> playerTokens[p] == []
      ensures |deck| == deckSize && forall y: nat :: y in deck <==> y < deckSize
    {
      this.featureSize := featureSize;
      slotToCard := new Option<nat>[tableSize](_ => None);
      cardToSlot := new Option<nat>[deckSize](_ => None);
      playerTokens := new seq<nat>[players](_ => []);
      deck := seq(deckSize, i requires 0 <= i => i as nat);
      new;
      assert forall y: nat :: y in deck <==> y < deckSize by {
        forall y: nat | y < deckSize ensures y in deck {
          assert deck[y] == y;
        }
      }
    }

    /**
     * The table built over a pre-seeded grid: the draw pile holds, once each and in some order,
     * the cards that are not on the grid.
     */
    constructor WithGrid(slotToCard: array<Option<nat>>, cardToSlot: array<Option<nat>>, players: nat, featureSize: nat)
      requires slotToCard != cardToSlot
      requires Inverse(slotToCard[..], cardToSlot[..])
      ensures Valid()
      ensures this.slotToCard == slotToCard && this.cardToSlot == cardToSlot
      ensures fresh(playerTokens) && playerTokens.Length == players && this.featureSize == featureSize
      ensures forall p :: 0 <= p < players ==> playerTokens[p] == []
      ensures forall y: nat :: y in deck <==> y < cardToSlot.Length && cardToSlot[y] == None
    {
      var g := slotToCard[..];
      var d: seq<nat> := seq(cardToSlot.Length, i requires 0 <= i => i as nat);
      assert Distinct(d);
      assert forall y: nat :: y in Elems(d) <==> y < cardToSlot.Length by {
        forall y: nat | y < cardToSlot.Length ensures y in Elems(d) {
          assert d[y] == y;
        }
      }
      var i := 0;
      while i < slotToCard.Length
        invariant 0 <= i <= slotToCard.Length
        invariant Distinct(d)
        invariant forall y: nat :: y in Elems(d) <==> y < cardToSlot.Length && y !in GridCards(g[..i])
      {
        assert GridCards(g[..i + 1]) == GridCards(g[..i]) + (if g[i].Some? then {g[i].value} else {});
        if slotToCard[i].Some? {
          RemoveDistinct(d, slotToCard[i].value);
          d := Remove(d, slotToCard[i].value);
        }
        i := i + 1;
      }
      assert g[..i] == g;
      this.featureSize := featureSize;
      this.slotToCard := slotToCard;
      this.cardToSlot := cardToSlot;
      playerTokens := new seq<nat>[players](_ => []);
      deck := d;
      new;
      forall y: nat | y < cardToSlot.Length ensures y in GridCards(g) <==> cardToSlot[y].Some? {
        OnGridIffPlaced(g, cardToSlot[..], y);
      }
      assert forall k :: 0 <= k < |deck| ==> deck[k] in Elems(d);
    }

    /**
     * Whether `slot` is a slot of the grid (negative slots are excluded by the type). A slot that
     * is not legal holds no card and carries no token, so nothing is lost when it is refused.
     */
    predicate LegalSlot(slot: nat): (r: bool)
      reads this, slotToCard, cardToSlot, playerTokens
      ensures r <==> slot < slotToCard.Length
      ensures Valid() && !r ==> forall y :: 0 <= y < cardToSlot.Length ==> cardToSlot[y] != Some(slot)
      ensures Valid() && !r ==> forall p :: 0 <= p < playerTokens.Length ==> slot !in playerTokens[p]
    {
      slot < slotToCard.Length
    }

    /** Whether a token may be placed on `slot`: a legal slot that holds a card. */
    predicate TokenLegalSlot(slot: nat): (r: bool)
      reads this, slotToCard, cardToSlot, playerTokens
      requires Valid()
      ensures r <==> exists y :: 0 <= y < cardToSlot.Length && cardToSlot[y] == Some(slot)
    {
      if LegalSlot(slot) && slotToCard[slot].Some? then
        assert cardToSlot[slotToCard[slot].value] == Some(slot);
        true
      else
        false
    }

    /** Whether a card lies in `slot`. */
    predicate HasCard(slot: nat): (r: bool)
      reads this, slotToCard, cardToSlot, playerTokens
      requires Valid() && slot < slotToCard.Length
      ensures r <==> slot in Occupied(slotToCard[..])
      ensures r <==> exists y :: 0 <= y < cardToSlot.Length && cardToSlot[y] == Some(slot)
    {
      var r := TokenLegalSlot(slot);
      r
    }

    /** The number of tokens `player` holds. */
    function TokenAmount(player: nat): (n: nat)
      reads this, slotToCard, cardToSlot, playerTokens
      requires Valid() && player < playerTokens.Length
      ensures n <= featureSize
    {
      |playerTokens[player]|
    }

    /** The tokens of `player`, as a snapshot. */
    function GetPlayerTokens(player: nat): (t: seq<nat>)
      reads this, slotToCard, cardToSlot, playerTokens
      requires Valid() && player < playerTokens.Length
      ensures Distinct(t) && |t| <= featureSize
      ensures forall i :: 0 <= i < |t| ==> t[i] < slotToCard.Length && slotToCard[t[i]].Some?
    {
      playerTokens[player]
    }

    /** Whether the draw pile is empty: exactly when every card still in play is on the grid. */
    predicate DeckEmpty(): (r: bool)
      reads this, slotToCard, cardToSlot, playerTokens
      requires Valid()
      ensures r <==> deck == []
      ensures r <==> Cards() == GridCards(slotToCard[..])
    {
      if deck == [] then
        assert Elems(deck) == {};
        true
      else
        assert deck[0] in Elems(deck);
        OnGridIffPlaced(slotToCard[..], cardToSlot[..], deck[0]);
        false
    }

    /** On an empty grid no player holds a token, and the draw pile is every card still in play. */
    lemma EmptyGrid()
      requires Valid()
      requires forall x :: 0 <= x < slotToCard.Length ==> slotToCard[x] == None
      ensures forall p :: 0 <= p < playerTokens.Length ==> playerTokens[p] == []
      ensures Cards() == Elems(deck)
    {
      assert GridCards(slotToCard[..]) == {};
      forall p | 0 <= p < playerTokens.Length ensures playerTokens[p] == [] {
        var t := playerTokens[p];
        assert forall y :: y in Elems(t) ==> y < slotToCard.Length && slotToCard[y].Some?;
        assert Elems(t) == {};
        NoElemsEmpty(t);
      }
    }

    /** The number of cards on the grid. */
    method CountCards() returns (cards: nat)
      requires Valid()
      ensures cards == |Occupied(slotToCard[..])|
      ensures cards == |GridCards(slotToCard[..])|
    {
      cards := 0;
      var i := 0;
      while i < slotToCard.Length
        invariant 0 <= i <= slotToCard.Length
        invariant cards == CountSome(slotToCard[..i])
      {
        assert slotToCard[..i + 1][..i] == slotToCard[..i];
        if slotToCard[i].Some? {
          cards := cards + 1;
        }
        i := i + 1;
      }
      assert slotToCard[..i] == slotToCard[..];
      CountSomeIsOccupied(slotToCard[..]);
      GridCardsCount(slotToCard[..], cardToSlot[..]);
    }

    /** Places `card`, which must be in the draw pile, in the empty grid slot `slot`. */
    method PlaceCard(card: int, slot: nat) returns (r: Outcome<TableError>)
      requires Valid()
      modifies this, slotToCard, cardToSlot
      ensures Valid()
      ensures r == if card !in old(deck) then Fail(CardNotInDeck)
                   else if slot >= slotToCard.Length then Fail(NoSuchSlot)
                   else if old(slotToCard[slot]).Some? then Fail(SlotOccupied)
                   else Pass
      ensures r.Pass? ==> 0 <= card < cardToSlot.Length
                          && deck == Remove(old(deck), card as nat)
                          && slotToCard[..] == old(slotToCard[..])[slot := Some(card as nat)]
                          && cardToSlot[..] == old(cardToSlot[..])[card := Some(slot)]
      ensures r.Fail? ==> deck == old(deck) && slotToCard[..] == old(slotToCard[..])
                          && cardToSlot[..] == old(cardToSlot[..])
      ensures Cards() == old(Cards())
    {
      if card !in deck {
        return Fail(CardNotInDeck);
      }
      if !LegalSlot(slot) {
        return Fail(NoSuchSlot);
      }
      if slotToCard[slot].Some? {
        return Fail(SlotOccupied);
      }
      ghost var g, c := slotToCard[..], cardToSlot[..];
      var y: nat := card;
      PlaceKeeps(g, c, deck, slot, y);
      forall p | 0 <= p < playerTokens.Length ensures TokensOk(playerTokens[p], g[slot := Some(y)], featureSize) {
        TokensOnPlace(playerTokens[p], g, featureSize, slot, y);
      }
      GridCardsPlace(g, slot, y);
      deck := Remove(deck, y);
      cardToSlot[y] := Some(slot);
      slotToCard[slot] := Some(y);
      assert slotToCard[..] == g[slot := Some(y)];
      assert cardToSlot[..] == c[y := Some(slot)];
      r := Pass;
    }

    /** Places the card at the head of the draw pile in `slot`. */
    method PlaceCardFromDeck(slot: nat) returns (r: Outcome<TableError>)
      requires Valid()
      modifies this, slotToCard, cardToSlot
      ensures Valid()
      ensures r == if old(deck) == [] then Fail(EmptyDeck)
                   else if slot >= slotToCard.Length then Fail(NoSuchSlot)
                   else if old(slotToCard[slot]).Some? then Fail(SlotOccupied)
                   else Pass
      ensures r.Pass? ==> old(deck)[0] < cardToSlot.Length
                          && deck == old(deck)[1..]
                          && slotToCard[..] == old(slotToCard[..])[slot := Some(old(deck)[0])]
                          && cardToSlot[..] == old(cardToSlot[..])[old(deck)[0] := Some(slot)]
      ensures r.Fail? ==> deck == old(deck) && slotToCard[..] == old(slotToCard[..])
                          && cardToSlot[..] == old(cardToSlot[..])
      ensures Cards() == old(Cards())
    {
      if deck == [] {
        return Fail(EmptyDeck);
      }
      r := PlaceCard(deck[0], slot);
    }

    /**
     * Removes the card in `slot`, first taking every player's token off that slot.
     * Returns the card that was there, or `None` for an empty slot.
     */
    method RemoveCardWorker(slot: nat) returns (r: Result<Option<nat>, TableError>)
      requires Valid()
      modifies slotToCard, cardToSlot, playerTokens
      ensures Valid()
      ensures slot >= slotToCard.Length ==> r == Failure(NoSuchSlot)
      ensures slot < slotToCard.Length ==> r == Success(old(slotToCard[slot]))
      ensures r.Failure? ==> slotToCard[..] == old(slotToCard[..]) && cardToSlot[..] == old(cardToSlot[..])
                             && playerTokens[..] == old(playerTokens[..])
      ensures r.Success? ==> Cleared(slot, old(slotToCard[..]), old(cardToSlot[..]), old(playerTokens[..]))
    {
      if !LegalSlot(slot) {
        return Failure(NoSuchSlot);
      }
      var i := 0;
      while i < playerTokens.Length
        invariant 0 <= i <= playerTokens.Length
        invariant Valid()
        invariant slotToCard[..] == old(slotToCard[..]) && cardToSlot[..] == old(cardToSlot[..])
        invariant forall p :: 0 <= p < i ==> playerTokens[p] == Remove(old(playerTokens[p]), slot)
        invariant forall p :: i <= p < playerTokens.Length ==> playerTokens[p] == old(playerTokens[p])
      {
        var _ := RemoveToken(i, slot);
        i := i + 1;
      }
      ghost var g, c := slotToCard[..], cardToSlot[..];
      forall p | 0 <= p < playerTokens.Length ensures TokensOk(playerTokens[p], g[slot := None], featureSize) {
        RemoveDistinct(old(playerTokens[p]), slot);
        TokensOffSlot(playerTokens[p], g, featureSize, slot);
      }
      var card := slotToCard[slot];
      if card.Some? {
        cardToSlot[card.value] := None;
      }
      slotToCard[slot] := None;
      ClearSlotKeeps(g, c, deck, slot);
      assert slotToCard[..] == g[slot := None];
      assert cardToSlot[..] == if g[slot].Some? then c[g[slot].value := None] else c;
      r := Success(card);
    }

    /**
     * The state after the card in `slot` has been removed from the grid described by `g`, `c`
     * and `t`: the slot is empty, its card has no slot, and no player has a token on it.
     */
    ghost predicate Cleared(slot: nat, g: seq<Option<nat>>, c: seq<Option<nat>>, t: seq<seq<nat>>)
      reads this, slotToCard, cardToSlot, playerTokens
      requires slot < |g| && Inverse(g, c)
    {
      && slotToCard[..] == g[slot := None]
      && cardToSlot[..] == (if g[slot].Some? then c[g[slot].value := None] else c)
      && |t| == playerTokens.Length
      && forall p :: 0 <= p < |t| ==> playerTokens[p] == Remove(t[p], slot)
    }

    /** Removes the card in `slot` (and every token on it). */
    method RemoveCard(slot: nat) returns (r: Outcome<TableError>)
      requires Valid()
      modifies slotToCard, cardToSlot, playerTokens
      ensures Valid()
      ensures r == if slot >= slotToCard.Length then Fail(NoSuchSlot) else Pass
      ensures r.Fail? ==> slotToCard[..] == old(slotToCard[..]) && cardToSlot[..] == old(cardToSlot[..])
                          && playerTokens[..] == old(playerTokens[..])
      ensures r.Pass? ==> Cleared(slot, old(slotToCard[..]), old(cardToSlot[..]), old(playerTokens[..]))
    {
      var card := RemoveCardWorker(slot);
      r := if card.Failure? then Fail(card.error) else Pass;
    }

    /** Removes the card in `slot` and puts it at the bottom of the draw pile: no card leaves play. */
    method RemoveCardAndReturnToDeck(slot: nat) returns (r: Outcome<TableError>)
      requires Valid()
      modifies this, slotToCard, cardToSlot, playerTokens
      ensures Valid()
      ensures r == if slot >= slotToCard.Length then Fail(NoSuchSlot) else Pass
      ensures r.Fail? ==> deck == old(deck) && slotToCard[..] == old(slotToCard[..])
                          && cardToSlot[..] == old(cardToSlot[..]) && playerTokens[..] == old(playerTokens[..])
      ensures r.Pass? ==> Cleared(slot, old(slotToCard[..]), old(cardToSlot[..]), old(playerTokens[..]))
                          && deck == old(deck) + (if old(slotToCard[slot]).Some? then [old(slotToCard[slot]).value] else [])
      ensures Cards() == old(Cards())
    {
      ghost var g := slotToCard[..];
      var card := RemoveCardWorker(slot);
      if card.Failure? {
        return Fail(card.error);
      }
      if card.value.Some? {
        var y := card.value.value;
        assert y !in Elems(deck) by {
          forall k | 0 <= k < |deck| ensures deck[k] != y {
            assert cardToSlot[deck[k]] == None;
          }
        }
        assert GridCards(g) == GridCards(slotToCard[..]) + {y} by {
          assert forall x :: 0 <= x < |g| && x != slot ==> g[x] == slotToCard[x];
        }
        deck := deck + [y];
        assert Distinct(deck) by {
          forall i, j | 0 <= i < j < |deck| ensures deck[i] != deck[j] {
            if j == |deck| - 1 {
              assert deck[i] == old(deck)[i] && deck[i] in Elems(old(deck));
            }
          }
        }
        assert Elems(deck) == Elems(old(deck)) + {y};
      } else {
        assert GridCards(g) == GridCards(slotToCard[..]) by {
          assert forall x :: 0 <= x < |g| && x != slot ==> g[x] == slotToCard[x];
        }
      }
      r := Pass;
    }

    /**
     * Places or takes back `player`'s token on `slot`. Returns whether the player's tokens changed:
     * a token there is removed; otherwise one is placed if the slot holds a card and the player
     * holds fewer than `featureSize` tokens.
     */
    method Token(player: nat, slot: nat) returns (changed: bool)
      requires Valid() && player < playerTokens.Length
      modifies playerTokens
      ensures Valid()
      ensures forall p :: 0 <= p < playerTokens.Length && p != player ==> playerTokens[p] == old(playerTokens[p])
      ensures old(slot in playerTokens[player]) ==> changed && playerTokens[player] == Remove(old(playerTokens[player]), slot)
      ensures old(slot !in playerTokens[player]) ==>
                && (changed <==> slot < slotToCard.Length && slotToCard[slot].Some? && old(|playerTokens[player]|) < featureSize)
                && playerTokens[player] == if changed then old(playerTokens[player]) + [slot] else old(playerTokens[player])
    {
      if !TokenLegalSlot(slot) {
        return false;
      }
      if slot in playerTokens[player] {
        changed := RemoveToken(player, slot);
      } else {
        var tokens := TokenAmount(player);
        PlaceToken(player, slot);
        changed := TokenAmount(player) > tokens;
      }
    }

    /** Places `player`'s token on `slot` when the slot holds a card, the player holds fewer than `featureSize` tokens and none there. */
    method PlaceToken(player: nat, slot: nat)
      requires Valid() && player < playerTokens.Length
      modifies playerTokens
      ensures Valid()
      ensures playerTokens[..] == old(playerTokens[..])[player :=
                if slot < slotToCard.Length && slotToCard[slot].Some? && old(|playerTokens[player]|) < featureSize
                   && slot !in old(playerTokens[player])
                then old(playerTokens[player]) + [slot] else old(playerTokens[player])]
    {
      if !TokenLegalSlot(slot) {
        return;
      }
      if TokenAmount(player) >= featureSize {
        return;
      }
      if slot in playerTokens[player] {
        return;
      }
      ghost var t := playerTokens[player];
      playerTokens[player] := playerTokens[player] + [slot];
      assert Distinct(playerTokens[player]) by {
        var t' := playerTokens[player];
        forall i, j | 0 <= i < j < |t'| ensures t'[i] != t'[j] {
          if j == |t| {
            assert t'[i] == t[i];
          }
        }
      }
    }

    /** Takes `player`'s token off `slot`; returns whether the player had a token there. */
    method RemoveToken(player: nat, slot: nat) returns (removed: bool)
      requires Valid() && player < playerTokens.Length
      modifies playerTokens
      ensures Valid()
      ensures removed <==> old(slot in playerTokens[player])
      ensures playerTokens[..] == old(playerTokens[..])[player := Remove(old(playerTokens[player]), slot)]
    {
      if !TokenLegalSlot(slot) {
        assert slot !in playerTokens[player];
        return false;
      }
      if TokenAmount(player) <= 0 {
        return false;
      }
      if slot in playerTokens[player] {
        var t := playerTokens[player];
        var r := Remove(t, slot);
        RemoveDistinct(t, slot);
        forall i | 0 <= i < |r| ensures r[i] < slotToCard.Length && slotToCard[r[i]].Some? {
          assert r[i] in Elems(r);
          assert r[i] in Elems(t);
          assert r[i] in t;
          var j :| 0 <= j < |t| && t[j] == r[i];
        }
        playerTokens[player] := r;
        return true;
      }
      return false;
    }
  }
}
