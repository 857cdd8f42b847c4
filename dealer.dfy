/**
 * The dealer's rules: registering declared sets, judging them, refilling the grid from the draw
 * pile, sweeping the grid back into the pile and naming the winners. The card-game rule itself
 * (`testSet`) and the search for sets (`findSets`) are outside the model and enter as functions.
 */
module Dealers {
  import opened Wrappers
  import opened Seqs
  import opened Tables
  import opened Players

  /** The verdict on one declared set. */
  datatype Verdict = Point(player: nat) | Penalty(player: nat)

  function Min(a: nat, b: nat): nat {
    if a <= b then a else b
  }

  /** The card in slot `x` of grid `g`, or -1 for an empty slot. */
  function CardAt(g: seq<Option<nat>>, x: nat): int {
    if x < |g| && g[x].Some? then g[x].value else -1
  }

  /** The cards under the token slots `s`, in token order, with -1 for an empty slot. */
  function CardsAt(g: seq<Option<nat>>, s: seq<nat>): (r: seq<int>)
    ensures |r| == |s|
    ensures forall k :: 0 <= k < |s| ==> r[k] == CardAt(g, s[k])
  {
    if s == [] then [] else CardsAt(g, s[..|s| - 1]) + [CardAt(g, s[|s| - 1])]
  }

  /** Every slot of `s` holds a card. */
  ghost predicate AllOccupied(g: seq<Option<nat>>, s: seq<nat>) {
    forall k :: 0 <= k < |s| ==> s[k] < |g| && g[s[k]].Some?
  }

  /** A claim on token slots `s` is a set: `featureSize` tokens, all on cards, whose cards `testSet` accepts. */
  ghost predicate ClaimIsSet(g: seq<Option<nat>>, s: seq<nat>, featureSize: nat, testSet: seq<int> -> bool) {
    |s| == featureSize && AllOccupied(g, s) && testSet(CardsAt(g, s))
  }

  /** Grid `g` with every slot of `s` emptied, one after the other. */
  function ClearSlots(g: seq<Option<nat>>, s: seq<nat>): (r: seq<Option<nat>>)
    ensures |r| == |g|
  {
    if s == [] then g
    else
      var h := ClearSlots(g, s[..|s| - 1]);
      if s[|s| - 1] < |h| then h[s[|s| - 1] := None] else h
  }

  /** Exactly the slots of `s` are emptied; every other slot keeps its card. */
  lemma {:induction false} ClearSlotsAt(g: seq<Option<nat>>, s: seq<nat>)
    ensures forall x :: 0 <= x < |g| ==> ClearSlots(g, s)[x] == if x in s then None else g[x]
  {
    if s != [] {
      var front := s[..|s| - 1];
      ClearSlotsAt(g, front);
      assert forall x :: x in s <==> x in front || x == s[|s| - 1] by {
        assert s == front + [s[|s| - 1]];
      }
    }
  }

  /** Grid `g` after visiting the slots `s` in order, placing `d[j]` in slot `s[j]` while `d` lasts. */
  function Refill(g: seq<Option<nat>>, s: seq<nat>, d: seq<nat>): (r: seq<Option<nat>>)
    ensures |r| == |g|
  {
    if s == [] then g
    else
      var j := |s| - 1;
      var h := Refill(g, s[..j], d);
      if j < |d| && s[j] < |h| then h[s[j] := Some(d[j])] else h
  }

  /**
   * Refilling distinct slots puts the `j`-th card in the `j`-th slot visited, as long as cards
   * last, and leaves every other slot as it was.
   */
  lemma {:induction false} RefillPlaces(g: seq<Option<nat>>, s: seq<nat>, d: seq<nat>)
    requires Distinct(s) && forall j :: 0 <= j < |s| ==> s[j] < |g|
    ensures forall j :: 0 <= j < Min(|s|, |d|) ==> Refill(g, s, d)[s[j]] == Some(d[j])
    ensures forall x :: 0 <= x < |g| && x !in s[..Min(|s|, |d|)] ==> Refill(g, s, d)[x] == g[x]
  {
    if s != [] {
      var j := |s| - 1;
      var front := s[..j];
      RefillPlaces(g, front, d);
      var h := Refill(g, front, d);
      if j < |d| {
        assert Min(|s|, |d|) == |s| && Min(|front|, |d|) == j;
        assert s[..|s|] == s && front[..j] == front;
        assert s == front + [s[j]];
        forall i | 0 <= i < j ensures s[i] != s[j] {
        }
      } else {
        assert Min(|s|, |d|) == |d| == Min(|front|, |d|);
        assert s[..|d|] == front[..|d|];
      }
    }
  }

  /** Refilling every empty slot of `g` from at least as many cards as there are slots to fill leaves no slot empty. */
  lemma RefillFills(g: seq<Option<nat>>, s: seq<nat>, d: seq<nat>)
    requires ArrangesEmpty(s, g) && |s| <= |d|
    ensures forall x :: 0 <= x < |g| ==> Refill(g, s, d)[x].Some?
  {
    RefillPlaces(g, s, d);
    assert s[..Min(|s|, |d|)] == s;
    forall x | 0 <= x < |g| ensures Refill(g, s, d)[x].Some? {
      if x in s {
        var j :| 0 <= j < |s| && s[j] == x;
      }
    }
  }

  /** One step of the refill: the next slot visited is still empty, and receives the next card if one is left. */
  lemma RefillStep(g: seq<Option<nat>>, s: seq<nat>, d: seq<nat>, i: nat)
    requires ArrangesEmpty(s, g) && i < |s|
    ensures s[i] < |g| && Refill(g, s[..i], d)[s[i]] == None
    ensures Refill(g, s[..i + 1], d) == if i < |d| then Refill(g, s[..i], d)[s[i] := Some(d[i])] else Refill(g, s[..i], d)
  {
    assert s[..i + 1][..i] == s[..i];
    assert s[i] !in s[..i][..Min(i, |d|)] by {
      assert s[i] !in s[..i];
    }
    RefillPlaces(g, s[..i], d);
  }

  /** Refilling only the empty slots leaves every card already on the grid where it was. */
  lemma RefillKeepsOccupied(g: seq<Option<nat>>, s: seq<nat>, d: seq<nat>)
    requires ArrangesEmpty(s, g)
    ensures forall x :: 0 <= x < |g| && g[x].Some? ==> Refill(g, s, d)[x] == g[x]
  {
    RefillPlaces(g, s, d);
    forall x | 0 <= x < |g| && g[x].Some? ensures x !in s[..Min(|s|, |d|)] {
      assert forall j :: 0 <= j < Min(|s|, |d|) ==> s[..Min(|s|, |d|)][j] == s[j] && g[s[j]] == None;
    }
  }

  /**
   * The outcome of a refill over every empty slot: either the cards ran out or no slot is empty,
   * and the cards already on the grid stay where they were.
   */
  lemma RefillOutcome(g: seq<Option<nat>>, s: seq<nat>, d: seq<nat>)
    requires ArrangesEmpty(s, g)
    ensures d[Min(|s|, |d|)..] == [] || forall x :: 0 <= x < |g| ==> Refill(g, s, d)[x].Some?
    ensures forall x :: 0 <= x < |g| && g[x].Some? ==> Refill(g, s, d)[x] == g[x]
  {
    RefillKeepsOccupied(g, s, d);
    if |s| <= |d| {
      RefillFills(g, s, d);
    }
  }

  /** `s` lists each empty slot of grid `g` exactly once (a shuffle of the empty slots). */
  ghost predicate ArrangesEmpty(s: seq<nat>, g: seq<Option<nat>>) {
    && Distinct(s)
    && (forall j :: 0 <= j < |s| ==> s[j] < |g| && g[s[j]] == None)
    && (forall x :: 0 <= x < |g| && g[x] == None ==> x in s)
  }

  /** `s` lists each slot of grid `g` exactly once (a shuffle of all slots). */
  ghost predicate ArrangesAll(s: seq<nat>, g: seq<Option<nat>>) {
    && Distinct(s)
    && (forall j :: 0 <= j < |s| ==> s[j] < |g|)
    && (forall x :: 0 <= x < |g| ==> x in s)
  }

  /** The cards in the slots `s` of grid `g`, in slot order, skipping empty slots. */
  function CardsIn(g: seq<Option<nat>>, s: seq<nat>): seq<nat> {
    if s == [] then []
    else
      var x := s[|s| - 1];
      CardsIn(g, s[..|s| - 1]) + (if x < |g| && g[x].Some? then [g[x].value] else [])
  }

  /** One step of the sweep: the next slot visited still holds its original card, which goes to the pile. */
  lemma SweepStep(g: seq<Option<nat>>, s: seq<nat>, i: nat)
    requires ArrangesAll(s, g) && i < |s|
    ensures s[i] < |g| && ClearSlots(g, s[..i])[s[i]] == g[s[i]]
    ensures ClearSlots(g, s[..i + 1]) == ClearSlots(g, s[..i])[s[i] := None]
    ensures CardsIn(g, s[..i + 1]) == CardsIn(g, s[..i]) + (if g[s[i]].Some? then [g[s[i]].value] else [])
  {
    FreshInPrefix(s, i);
    PrefixStep(s, i);
    ClearSlotsAt(g, s[..i]);
  }

  /** An element of a sequence without duplicates does not occur before its position. */
  lemma FreshInPrefix(s: seq<nat>, i: nat)
    requires Distinct(s) && i < |s|
    ensures s[i] !in s[..i]
  {
    forall j | 0 <= j < i ensures s[..i][j] != s[i] {
      assert s[..i][j] == s[j];
    }
  }

  /** The prefix of length `i + 1` is the prefix of length `i` followed by `s[i]`. */
  lemma PrefixStep(s: seq<nat>, i: nat)
    requires i < |s|
    ensures var t := s[..i + 1]; t != [] && t[..|t| - 1] == s[..i] && t[|t| - 1] == s[i]
  {
  }

  /** Sweeping every slot leaves the grid empty. */
  lemma SweptAll(g: seq<Option<nat>>, s: seq<nat>)
    requires ArrangesAll(s, g)
    ensures forall x :: 0 <= x < |g| ==> ClearSlots(g, s)[x] == None
  {
    ClearSlotsAt(g, s);
  }

  /** The grid array read slot by slot. */
  lemma Slots(a: array<Option<nat>>, r: seq<Option<nat>>)
    requires a[..] == r
    ensures forall x :: 0 <= x < a.Length ==> a[x] == r[x]
  {
  }

  /** A snapshot of the table's grid and of every player's tokens, taken before or after a verdict. */
  datatype Round = Round(grid: seq<Option<nat>>, tokens: seq<seq<nat>>)

  /** Every token list of `t` with the slots of `s` removed one after the other. */
  function RemoveFromAll(t: seq<seq<nat>>, s: seq<nat>): (r: seq<seq<nat>>)
    ensures |r| == |t| && forall q :: 0 <= q < |t| ==> r[q] == RemoveAll(t[q], s)
  {
    seq(|t|, q requires 0 <= q < |t| => RemoveAll(t[q], s))
  }

  /**
   * Verdict `v` on player `p`'s claim takes the table from `before` to `after`: a point exactly
   * when the claim is a set, and then the claimed slots leave the grid and every token list;
   * after a penalty nothing changes.
   */
  ghost predicate Judged(before: Round, after: Round, p: nat, v: Verdict, featureSize: nat, testSet: seq<int> -> bool) {
    && p < |before.tokens| && v.player == p
    && (v.Point? <==> ClaimIsSet(before.grid, before.tokens[p], featureSize, testSet))
    && after == if v.Point? then Round(ClearSlots(before.grid, before.tokens[p]), RemoveFromAll(before.tokens, before.tokens[p]))
                else before
  }

  /**
   * The verdicts `log` judge the first `|log|` claims in order, verdict `k` taking the table from
   * snapshot `rounds[k]` to `rounds[k + 1]`.
   */
  ghost predicate JudgedLog(rounds: seq<Round>, claims: seq<nat>, log: seq<Verdict>, featureSize: nat, testSet: seq<int> -> bool) {
    && |rounds| == |log| + 1 && |log| <= |claims|
    && forall k :: 0 <= k < |log| ==> log[k].player == claims[k] && Judged(rounds[k], rounds[k + 1], claims[k], log[k], featureSize, testSet)
  }

  /** Judging the next claim extends the log by one verdict and one snapshot. */
  lemma JudgedLogStep(rounds: seq<Round>, claims: seq<nat>, log: seq<Verdict>, featureSize: nat, testSet: seq<int> -> bool, v: Verdict, after: Round)
    requires JudgedLog(rounds, claims, log, featureSize, testSet) && |log| < |claims|
    requires Judged(rounds[|log|], after, claims[|log|], v, featureSize, testSet)
    ensures JudgedLog(rounds + [after], claims, log + [v], featureSize, testSet)
  {
    var rounds', log' := rounds + [after], log + [v];
    forall k | 0 <= k < |log'|
      ensures log'[k].player == claims[k] && Judged(rounds'[k], rounds'[k + 1], claims[k], log'[k], featureSize, testSet)
    {
      assert rounds'[k] == rounds[k];
      if k < |log| {
        assert rounds'[k + 1] == rounds[k + 1] && log'[k] == log[k];
      }
    }
  }

  /** The first `n + 1` elements of `c` are the first `n` and `c[n]`. */
  lemma PrefixMembers(c: seq<nat>, n: nat)
    requires n < |c|
    ensures forall i :: i in c[..n + 1] <==> i in c[..n] || i == c[n]
  {
    assert c[..n + 1] == c[..n] + [c[n]];
  }

  /** A player's score and its three verdict flags. */
  datatype Standing = Standing(score: nat, waiting: bool, point: bool, penalty: bool)

  /** The number of points player `i` receives in `log`. */
  function PointsFor(log: seq<Verdict>, i: nat): nat {
    if log == [] then 0 else PointsFor(log[..|log| - 1], i) + (if log[|log| - 1] == Point(i) then 1 else 0)
  }

  class Dealer {
    /** The shared table. */
    const table: Table
    /** The players, player `i` at index `i`. */
    const players: array<Player>
    /** Whether the given cards form a legal set. */
    const testSet: seq<int> -> bool
    /** Up to the given number of legal sets among the given cards. */
    const findSets: (seq<nat>, nat) -> seq<seq<nat>>
    /** Set once the game should end. */
    var terminate: bool
    /** The players whose declared sets await a verdict, ascending by id as the priority queue orders them. */
    var setContenders: seq<nat>

    /** Player `i` has id `i`, sits at this table and is valid. */
    ghost predicate PlayersValid()
      reads this, players
      reads set i | 0 <= i < players.Length :: players[i]
      reads set i | 0 <= i < players.Length :: players[i].inputBuffer
    {
      forall i :: 0 <= i < players.Length ==> players[i].id == i && players[i].table == table && players[i].Valid()
    }

    /** The table and the players are valid, there is one player per token list, and each contender is a player. */
    ghost predicate Valid()
      reads this, players, table, table.slotToCard, table.cardToSlot, table.playerTokens
      reads set i | 0 <= i < players.Length :: players[i]
      reads set i | 0 <= i < players.Length :: players[i].inputBuffer
    {
      && table.Valid()
      && players.Length == table.playerTokens.Length
      && PlayersValid()
      && Sorted(setContenders)
      && (forall k :: 0 <= k < |setContenders| ==> setContenders[k] < players.Length)
    }

    constructor (table: Table, players: array<Player>, testSet: seq<int> -> bool, findSets: (seq<nat>, nat) -> seq<seq<nat>>)
      requires table.Valid() && players.Length == table.playerTokens.Length
      requires forall i :: 0 <= i < players.Length ==> players[i].id == i && players[i].table == table && players[i].Valid()
      ensures Valid()
      ensures this.table == table && this.players == players && this.testSet == testSet && this.findSets == findSets
      ensures !terminate && setContenders == []
    {
      this.table := table;
      this.players := players;
      this.testSet := testSet;
      this.findSets := findSets;
      terminate := false;
      setContenders := [];
    }

    /**
     * The game ends once terminated or once `findSets` finds no set in the draw pile. The draw
     * pile alone is searched; on an empty grid, the state at its call sites, the draw pile is every card
     * still in play.
     */
    predicate ShouldFinish(): (r: bool)
      reads this, table, table.slotToCard, table.cardToSlot, table.playerTokens
      ensures r <==> terminate || findSets(table.deck, 1) == []
      ensures table.Valid() && (forall x :: 0 <= x < table.slotToCard.Length ==> table.slotToCard[x] == None) ==>
                Elems(table.deck) == table.Cards()
    {
      assert table.Valid() && (forall x :: 0 <= x < table.slotToCard.Length ==> table.slotToCard[x] == None) ==>
               Elems(table.deck) == table.Cards() by {
        if table.Valid() && forall x :: 0 <= x < table.slotToCard.Length ==> table.slotToCard[x] == None {
          table.EmptyGrid();
        }
      }
      terminate || findSets(table.deck, 1) == []
    }

    /** Registers player `id`'s declared set; a player already waiting is not rejected. */
    method DeclareSet(id: nat)
      requires Valid() && id < players.Length
      modifies this
      ensures Valid() && terminate == old(terminate)
      ensures setContenders == Insert(old(setContenders), id)
      ensures multiset(setContenders) == multiset(old(setContenders)) + multiset{id}
    {
      setContenders := Insert(setContenders, id);
      assert forall k :: 0 <= k < |setContenders| ==> setContenders[k] in multiset(setContenders);
    }

    /** Reads player `p`'s tokens and judges them: is the claim a set? */
    method EvaluateClaim(p: nat) returns (tokens: seq<nat>, isSet: bool)
      requires table.Valid() && p < table.playerTokens.Length
      ensures tokens == table.playerTokens[p]
      ensures isSet <==> ClaimIsSet(table.slotToCard[..], tokens, table.featureSize, testSet)
    {
      tokens := table.GetPlayerTokens(p);
      var cards: seq<int> := [];
      isSet := true;
      var i := 0;
      while i < |tokens|
        invariant 0 <= i <= |tokens|
        invariant cards == CardsAt(table.slotToCard[..], tokens[..i])
        invariant isSet <==> AllOccupied(table.slotToCard[..], tokens[..i])
      {
        assert tokens[..i + 1][..i] == tokens[..i];
        if table.slotToCard[tokens[i]].Some? {
          cards := cards + [table.slotToCard[tokens[i]].value];
        } else {
          cards := cards + [-1];
          isSet := false;
        }
        i := i + 1;
      }
      assert tokens[..i] == tokens;
      if |cards| != table.featureSize {
        isSet := false;
      }
      if isSet {
        isSet := testSet(cards);
      }
    }

    /**
     * Judges the set player `p` declared. A set earns a point and takes the cards under the
     * claim's tokens off the table (and every token on them); otherwise a penalty, and the table
     * is unchanged. Proceeds once the player waits for the verdict.
     */
    method ProcessClaim(p: nat) returns (isSet: bool)
      requires Valid() && p < players.Length && players[p].waitingForDeclareResult
      modifies players[p], table.slotToCard, table.cardToSlot, table.playerTokens
      ensures Valid()
      ensures isSet <==> ClaimIsSet(old(table.slotToCard[..]), old(table.playerTokens[p]), table.featureSize, testSet)
      ensures players[p].waitingForDeclareResult
      ensures forall i :: 0 <= i < players.Length && i != p ==>
                players[i].score == old(players[i].score) && players[i].waitingForDeclareResult == old(players[i].waitingForDeclareResult)
      ensures isSet ==> && players[p].score == old(players[p].score) + 1 && players[p].declareResultIsPoint
                        && players[p].declareResultIsPenalty == old(players[p].declareResultIsPenalty)
      ensures !isSet ==> && players[p].score == old(players[p].score) && players[p].declareResultIsPenalty
                         && players[p].declareResultIsPoint == old(players[p].declareResultIsPoint)
      ensures isSet ==> && table.slotToCard[..] == ClearSlots(old(table.slotToCard[..]), old(table.playerTokens[p]))
                        && (forall q :: 0 <= q < table.playerTokens.Length ==>
                              table.playerTokens[q] == RemoveAll(old(table.playerTokens[q]), old(table.playerTokens[p])))
                        && table.playerTokens[p] == []
      ensures !isSet ==> && table.slotToCard[..] == old(table.slotToCard[..]) && table.cardToSlot[..] == old(table.cardToSlot[..])
                         && table.playerTokens[..] == old(table.playerTokens[..])
    {
      var tokens;
      tokens, isSet := EvaluateClaim(p);
      if !isSet {
        players[p].Penalty();
        return;
      }
      players[p].Point();
      RemoveClaimedCards(tokens);
      RemoveAllSelf(tokens);
    }

    /** Takes the card in each slot of `tokens` off the table, one slot after another. */
    method RemoveClaimedCards(tokens: seq<nat>)
      requires table.Valid()
      modifies table.slotToCard, table.cardToSlot, table.playerTokens
      ensures table.Valid()
      ensures table.slotToCard[..] == ClearSlots(old(table.slotToCard[..]), tokens)
      ensures forall q :: 0 <= q < table.playerTokens.Length ==> table.playerTokens[q] == RemoveAll(old(table.playerTokens[q]), tokens)
    {
      ghost var g, t := table.slotToCard[..], table.playerTokens[..];
      var k := 0;
      while k < |tokens|
        invariant 0 <= k <= |tokens|
        invariant table.Valid()
        invariant forall x :: 0 <= x < table.slotToCard.Length ==> table.slotToCard[x] == if x in tokens[..k] then None else g[x]
        invariant forall q :: 0 <= q < table.playerTokens.Length ==> table.playerTokens[q] == RemoveAll(t[q], tokens[..k])
      {
        assert tokens[..k + 1][..k] == tokens[..k];
        assert forall x :: x in tokens[..k + 1] <==> x in tokens[..k] || x == tokens[k] by {
          assert tokens[..k + 1] == tokens[..k] + [tokens[k]];
        }
        var _ := table.RemoveCard(tokens[k]);
        k := k + 1;
      }
      assert tokens[..k] == tokens;
      ClearSlotsAt(g, tokens);
      assert table.slotToCard[..] == ClearSlots(g, tokens);
    }

    /** The current grid and token lists. */
    ghost function Snapshot(): Round
      reads this, table, table.slotToCard, table.playerTokens
    {
      Round(table.slotToCard[..], table.playerTokens[..])
    }

    /**
     * Takes the head contender (the smallest id) off the queue and judges its claim as
     * `ProcessClaim` does; returns the verdict. Only that player's score and flags change.
     */
    method JudgeHead() returns (ghost v: Verdict)
      requires Valid() && setContenders != []
      requires forall k :: 0 <= k < |setContenders| ==> players[setContenders[k]].waitingForDeclareResult
      modifies this, players[setContenders[0]], table.slotToCard, table.cardToSlot, table.playerTokens
      ensures Valid() && terminate == old(terminate) && table.deck == old(table.deck)
      ensures setContenders == old(setContenders[1..])
      ensures Judged(old(Snapshot()), Snapshot(), old(setContenders[0]), v, table.featureSize, testSet)
      ensures forall k :: 0 <= k < |setContenders| ==> players[setContenders[k]].waitingForDeclareResult
      ensures forall i :: 0 <= i < players.Length ==> players[i].score == old(players[i].score) + (if v == Point(i) then 1 else 0)
      ensures forall i :: 0 <= i < players.Length ==>
                && players[i].waitingForDeclareResult == (old(players[i].waitingForDeclareResult) || i == v.player)
                && players[i].declareResultIsPoint == (old(players[i].declareResultIsPoint) || v == Point(i))
                && players[i].declareResultIsPenalty == (old(players[i].declareResultIsPenalty) || v == Penalty(i))
    {
      ghost var before := Snapshot();
      var p := setContenders[0];
      setContenders := setContenders[1..];
      var isSet := ProcessClaim(p);
      v := if isSet then Point(p) else Penalty(p);
      if isSet {
        assert table.playerTokens[..] == RemoveFromAll(before.tokens, before.tokens[p]);
      }
    }

    /**
     * Drains the contenders, head first (ascending player id), judging each declared set. Claim
     * `k` receives verdict `log[k]`, which takes the table from snapshot `rounds[k]` to
     * `rounds[k + 1]` as `Judged` says; the scores gain exactly the points in the log, every judged
     * player is left waiting, and a player's point (penalty) flag is set exactly when it was
     * already or the log holds a point (penalty) for it. Proceeds once each contender waits for
     * its verdict.
     */
    method RemoveCardsFromTable() returns (ghost log: seq<Verdict>, ghost rounds: seq<Round>)
      requires Valid()
      requires forall k :: 0 <= k < |setContenders| ==> players[setContenders[k]].waitingForDeclareResult
      modifies this, table.slotToCard, table.cardToSlot, table.playerTokens
      modifies set i | 0 <= i < players.Length :: players[i]
      ensures Valid() && setContenders == [] && terminate == old(terminate)
      ensures |log| == |old(setContenders)| && |rounds| == |log| + 1
      ensures rounds[0] == old(Snapshot()) && rounds[|log|] == Snapshot()
      ensures forall k :: 0 <= k < |log| ==> Judged(rounds[k], rounds[k + 1], old(setContenders)[k], log[k], table.featureSize, testSet)
      ensures forall j, k :: 0 <= j < k < |log| ==> log[j].player <= log[k].player
      ensures forall i :: 0 <= i < players.Length ==> players[i].score == old(players[i].score) + PointsFor(log, i)
      ensures forall i :: 0 <= i < players.Length ==>
                && players[i].waitingForDeclareResult == (old(players[i].waitingForDeclareResult) || i in old(setContenders))
                && players[i].declareResultIsPoint == (old(players[i].declareResultIsPoint) || Point(i) in log)
                && players[i].declareResultIsPenalty == (old(players[i].declareResultIsPenalty) || Penalty(i) in log)
      ensures table.deck == old(table.deck)
    {
      ghost var claims := setContenders;
      ghost var s0 := Standings();
      log, rounds := [], [Snapshot()];
      while setContenders != []
        invariant Valid() && terminate == old(terminate) && table.deck == old(table.deck)
        invariant |log| <= |claims| && setContenders == claims[|log|..]
        invariant JudgedLog(rounds, claims, log, table.featureSize, testSet)
        invariant rounds[0] == old(Snapshot()) && rounds[|log|] == Snapshot()
        invariant forall k :: 0 <= k < |setContenders| ==> players[setContenders[k]].waitingForDeclareResult
        invariant Drained(s0, claims, log)
        decreases |setContenders|
      {
        log, rounds := JudgeNext(claims, log, rounds, s0);
      }
      assert claims[..|log|] == claims;
    }

    /** Every player's score and flags. */
    ghost function Standings(): (r: seq<Standing>)
      reads players, set i | 0 <= i < players.Length :: players[i]
      ensures |r| == players.Length
    {
      seq(players.Length, i reads players, set i | 0 <= i < players.Length :: players[i] requires 0 <= i < players.Length =>
        Standing(players[i].score, players[i].waitingForDeclareResult, players[i].declareResultIsPoint, players[i].declareResultIsPenalty))
    }

    /**
     * After the verdicts `log` on the first `|log|` claims, starting from standings `s0`: each score
     * gained the points in the log, each judged player waits, and each point (penalty) flag is set
     * when it was in `s0` or the log holds a point (penalty) for that player.
     */
    ghost predicate Drained(s0: seq<Standing>, claims: seq<nat>, log: seq<Verdict>)
      reads players, set i | 0 <= i < players.Length :: players[i]
    {
      && |s0| == players.Length && |log| <= |claims|
      && forall i :: 0 <= i < players.Length ==>
           && players[i].score == s0[i].score + PointsFor(log, i)
           && players[i].waitingForDeclareResult == (s0[i].waiting || i in claims[..|log|])
           && players[i].declareResultIsPoint == (s0[i].point || Point(i) in log)
           && players[i].declareResultIsPenalty == (s0[i].penalty || Penalty(i) in log)
    }

    /** One pass of the drain loop: judges claim `|log|`, the head contender, and extends the log. */
    method JudgeNext(ghost claims: seq<nat>, ghost log: seq<Verdict>, ghost rounds: seq<Round>, ghost s0: seq<Standing>)
      returns (ghost log': seq<Verdict>, ghost rounds': seq<Round>)
      requires Valid() && setContenders != [] && |log| < |claims| && setContenders == claims[|log|..]
      requires forall k :: 0 <= k < |setContenders| ==> players[setContenders[k]].waitingForDeclareResult
      requires JudgedLog(rounds, claims, log, table.featureSize, testSet) && rounds[|log|] == Snapshot()
      requires Drained(s0, claims, log)
      modifies this, players[setContenders[0]], table.slotToCard, table.cardToSlot, table.playerTokens
      ensures Valid() && terminate == old(terminate) && table.deck == old(table.deck)
      ensures |log'| <= |claims| && setContenders == claims[|log'|..] && |setContenders| < old(|setContenders|)
      ensures forall k :: 0 <= k < |setContenders| ==> players[setContenders[k]].waitingForDeclareResult
      ensures JudgedLog(rounds', claims, log', table.featureSize, testSet)
      ensures rounds'[0] == rounds[0] && rounds'[|log'|] == Snapshot()
      ensures Drained(s0, claims, log')
    {
      assert setContenders[0] == claims[|log|] && setContenders[1..] == claims[|log| + 1..];
      var v := JudgeHead();
      JudgedLogStep(rounds, claims, log, table.featureSize, testSet, v, Snapshot());
      assert (log + [v])[..|log|] == log;
      assert forall i :: PointsFor(log + [v], i) == PointsFor(log, i) + (if v == Point(i) then 1 else 0);
      PrefixMembers(claims, |log|);
      log', rounds' := log + [v], rounds + [Snapshot()];
    }

    /**
     * One pass of the refill loop: unless the draw pile is empty, its head goes into `order[i]`,
     * the next slot visited, which is still empty.
     */
    method PlaceNext(order: seq<nat>, i: nat, ghost g: seq<Option<nat>>, ghost d: seq<nat>)
      requires table.Valid() && ArrangesEmpty(order, g) && i < |order|
      requires table.deck == d[Min(i, |d|)..] && table.slotToCard[..] == Refill(g, order[..i], d)
      modifies table, table.slotToCard, table.cardToSlot
      ensures table.Valid() && table.Cards() == old(table.Cards())
      ensures table.deck == d[Min(i + 1, |d|)..] && table.slotToCard[..] == Refill(g, order[..i + 1], d)
    {
      RefillStep(g, order, d, i);
      assert i < |d| ==> d[i..][1..] == d[i + 1..];
      assert table.slotToCard[..][order[i]] == None;
      var empty := table.DeckEmpty();
      if !empty {
        var r := table.PlaceCardFromDeck(order[i]);
        assert r.Pass?;
      }
    }

    /**
     * Fills the empty slots from the head of the draw pile, visiting them in the shuffled order
     * `order`, until the pile runs out. Afterwards every slot holds a card or the pile is empty,
     * and only empty slots received cards.
     */
    method PlaceCardsOnTable(order: seq<nat>)
      requires table.Valid()
      requires ArrangesEmpty(order, table.slotToCard[..])
      modifies table, table.slotToCard, table.cardToSlot
      ensures table.Valid() && table.Cards() == old(table.Cards())
      ensures table.deck == old(table.deck)[Min(|order|, |old(table.deck)|)..]
      ensures table.slotToCard[..] == Refill(old(table.slotToCard[..]), order, old(table.deck))
      ensures table.deck == [] || forall x :: 0 <= x < table.slotToCard.Length ==> table.slotToCard[x].Some?
      ensures forall x :: 0 <= x < table.slotToCard.Length && old(table.slotToCard[x]).Some? ==>
                table.slotToCard[x] == old(table.slotToCard[x])
    {
      ghost var d, g := table.deck, table.slotToCard[..];
      Slots(table.slotToCard, g);
      var i := 0;
      while i < |order|
        invariant 0 <= i <= |order|
        invariant table.Valid()
        invariant table.Cards() == old(table.Cards())
        invariant table.deck == d[Min(i, |d|)..]
        invariant table.slotToCard[..] == Refill(g, order[..i], d)
      {
        PlaceNext(order, i, g, d);
        i := i + 1;
      }
      assert order[..i] == order;
      RefillOutcome(g, order, d);
      Slots(table.slotToCard, Refill(g, order, d));
    }

    /** One pass of the sweep loop: the card in `order[i]`, if any, goes to the bottom of the draw pile. */
    method SweepNext(order: seq<nat>, i: nat, ghost g: seq<Option<nat>>, ghost d: seq<nat>)
      requires table.Valid() && ArrangesAll(order, g) && i < |order|
      requires table.deck == d + CardsIn(g, order[..i]) && table.slotToCard[..] == ClearSlots(g, order[..i])
      modifies table, table.slotToCard, table.cardToSlot, table.playerTokens
      ensures table.Valid() && table.Cards() == old(table.Cards())
      ensures table.deck == d + CardsIn(g, order[..i + 1]) && table.slotToCard[..] == ClearSlots(g, order[..i + 1])
    {
      SweepStep(g, order, i);
      assert table.slotToCard[..][order[i]] == g[order[i]];
      var _ := table.RemoveCardAndReturnToDeck(order[i]);
    }

    /**
     * Takes every card off the grid, visiting the slots in the shuffled order `order`, and puts
     * each at the bottom of the draw pile. Afterwards the grid is empty, no player holds a token
     * and the draw pile holds every card that was in play.
     */
    method RemoveAllCardsFromTable(order: seq<nat>)
      requires table.Valid()
      requires ArrangesAll(order, table.slotToCard[..])
      modifies table, table.slotToCard, table.cardToSlot, table.playerTokens
      ensures table.Valid()
      ensures forall x :: 0 <= x < table.slotToCard.Length ==> table.slotToCard[x] == None
      ensures forall p :: 0 <= p < table.playerTokens.Length ==> table.playerTokens[p] == []
      ensures table.deck == old(table.deck) + CardsIn(old(table.slotToCard[..]), order)
      ensures Elems(table.deck) == old(table.Cards())
    {
      ghost var d, g := table.deck, table.slotToCard[..];
      var i := 0;
      while i < |order|
        invariant 0 <= i <= |order|
        invariant table.Valid()
        invariant table.Cards() == old(table.Cards())
        invariant table.deck == d + CardsIn(g, order[..i])
        invariant table.slotToCard[..] == ClearSlots(g, order[..i])
      {
        SweepNext(order, i, g, d);
        i := i + 1;
      }
      assert order[..i] == order;
      SweptAll(g, order);
      Slots(table.slotToCard, ClearSlots(g, order));
      table.EmptyGrid();
    }

    /** The winners: every player whose score is the top score, in ascending order; never empty. */
    method AnnounceWinners() returns (winners: seq<nat>)
      requires players.Length > 0
      ensures winners != []
      ensures forall j, k :: 0 <= j < k < |winners| ==> winners[j] < winners[k]
      ensures forall i: nat :: i in winners <==>
                i < players.Length && forall j :: 0 <= j < players.Length ==> players[j].score <= players[i].score
    {
      var topScore := players[0].score;
      ghost var best := 0;
      var i := 0;
      while i < players.Length
        invariant 0 <= i <= players.Length
        invariant 0 <= best < players.Length && topScore == players[best].score
        invariant forall j :: 0 <= j < i ==> players[j].score <= topScore
      {
        if players[i].score > topScore {
          topScore := players[i].score;
          best := i;
        }
        i := i + 1;
      }
      winners := [];
      i := 0;
      while i < players.Length
        invariant 0 <= i <= players.Length
        invariant forall w: nat :: w in winners <==> w < i && players[w].score == topScore
        invariant forall j, k :: 0 <= j < k < |winners| ==> winners[j] < winners[k]
        invariant forall k :: 0 <= k < |winners| ==> winners[k] < i
      {
        if players[i].score == topScore {
          winners := winners + [i];
        }
        i := i + 1;
      }
      assert best in winners;
    }
  }
}
