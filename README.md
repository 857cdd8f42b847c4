# The Set card game: table, dealer, players and key-press queue

This project models the sequential game state of a multi-threaded implementation of the card
game *Set*, and proves properties of that model in Dafny.

- The **table** holds the cards that are in play:
  - a grid of slots, kept as two arrays (`slotToCard` and `cardToSlot`);
  - the draw pile (`deck`);
  - every player's tokens.
- Each player presses keys to put tokens on slots. When a player's tokens reach `featureSize`, the player declares a set.
- The **dealer** handles the game flow:
  - it registers each declaration in a priority queue of contenders;
  - it judges each claim with an external `testSet`, awarding a point or a penalty;
  - it takes the cards of a correct set off the grid;
  - it refills empty slots from the draw pile, and sweeps the grid back into the pile at a reshuffle;
  - at the end it announces every player with the top score.
- A **bounded blocking FIFO** holds each player's pending key presses.

Every blocking wait of the program becomes a precondition of the step that waits:
- a full or empty queue;
- a verdict handed out before the player waits for it.

Every `synchronized` method becomes one atomic step.

Modules, one per source class plus two shared ones:

- `Wrappers`: `Option`, `Outcome` and `Result`.
- `Seqs`: operations on id sequences that mirror the Java collections:
  - `Remove` for `List.remove(Object)`;
  - `RemoveAll`;
  - `Insert` into a sorted sequence, for `PriorityQueue.add`;
  - `Distinct` and `Sorted`.
- `Tables`: class `Table`.
  - Its invariant `Valid()` says four things:
    - the two arrays are mutual inverses;
    - the draw pile holds distinct cards that are off the grid;
    - every token sits on an occupied slot;
    - no player holds more than `featureSize` tokens.
  - Runtime exceptions become a `TableError` in an `Outcome` or a `Result`.
- `Queues`: class `WaitNotifyBlockingQueue<T>` over a sequence. It also has a trace model (`QueueOp`, `Popped`, `Final`, `Added`) for the FIFO property.
- `Players`: class `Player`: the score, the three verdict flags, the key-press queue, and one pass of the player loop.
- `Dealers`: class `Dealer`.
  - `testSet` and `findSets` are function-valued constants, left uninterpreted.
  - The priority queue `setContenders` is a sorted sequence.
  - The specification functions over grids:
    - `CardsAt` and `ClaimIsSet`: what a claim reads and when it is a set;
    - `ClearSlots`: what a correct set takes off the grid;
    - `Refill`: what refilling does;
    - `CardsIn`: what a sweep returns to the pile.

Collections.shuffle becomes a parameter:
- `placeCardsOnTable` receives the shuffled empty slots as `order`, required to list each empty slot exactly once (`ArrangesEmpty`);
- `removeAllCardsFromTable` receives the shuffled list of all slots (`ArrangesAll`).

## Model

| member | source | states |
|---|---|---|
| Tables.Table.constructor | src/main/java/bguspl/set/ex/Table.java:72-74 | the table used in play: an empty grid of `tableSize` slots, no tokens, and a draw pile holding each card id below `deckSize` exactly once; the invariant holds |
| Tables.Table.WithGrid | src/main/java/bguspl/set/ex/Table.java:44-65 | over a pre-seeded grid, the draw pile holds exactly the cards not on the grid, each once (the loop over `slotToCard` with `deck.remove`); all token lists are empty; the invariant holds |
| Tables.GridCardsCount | src/main/java/bguspl/set/ex/Table.java:11 | because the two arrays are inverses, the cards on the grid are exactly as many as the occupied slots |
| Tables.OnGridIffPlaced | src/main/java/bguspl/set/ex/Table.java:11 | a card lies on the grid iff its `cardToSlot` entry is non-null |
| Tables.CountSomeIsOccupied | src/main/java/bguspl/set/ex/Table.java:99-105 | the front-to-back count of non-null entries equals the number of occupied slots |
| Tables.Table.CountCards | src/main/java/bguspl/set/ex/Table.java:99-105 | the loop returns the number of occupied slots, which is also the number of cards on the grid |
| Tables.Table.HasCard | src/main/java/bguspl/set/ex/Table.java:107-109 | true iff the slot is occupied, iff some card's `cardToSlot` entry names that slot |
| Tables.Table.LegalSlot | src/main/java/bguspl/set/ex/Table.java:215-217 | a slot is legal iff it indexes the grid; under the invariant an illegal slot holds no card and carries no player's token, so refusing it loses nothing |
| Tables.Table.TokenLegalSlot | src/main/java/bguspl/set/ex/Table.java:210-217 | true iff the slot is on the grid and some card lies in it |
| Tables.Table.TokenAmount | src/main/java/bguspl/set/ex/Table.java:242-245 | a player never holds more than `featureSize` tokens |
| Tables.Table.GetPlayerTokens | src/main/java/bguspl/set/ex/Table.java:251-253 | the snapshot has no duplicate slot, at most `featureSize` entries, and every entry is an occupied slot |
| Tables.Table.DeckEmpty | src/main/java/bguspl/set/ex/Table.java:247-249 | true iff the draw pile is empty, iff every card still in play is on the grid |
| Tables.Table.EmptyGrid | src/main/java/bguspl/set/ex/Table.java:11 | on an empty grid no player holds a token and the draw pile is every card still in play |
| Tables.PlaceKeeps | src/main/java/bguspl/set/ex/Table.java:133-135 | moving a draw-pile card into an empty slot keeps the two arrays inverse and the rest of the pile off the grid, with the same cards in play |
| Tables.ClearSlotKeeps | src/main/java/bguspl/set/ex/Table.java:158-161 | emptying a slot, and nulling its card's entry, keeps the two arrays inverse and the pile off the grid |
| Tables.Table.PlaceCard | src/main/java/bguspl/set/ex/Table.java:118-136 | the three exceptions are checked in the source's order (card not in pile, no such slot, slot occupied), and each changes nothing. Otherwise the card leaves the pile and occupies exactly that slot, both arrays are updated, and the invariant and the cards in play are kept |
| Tables.Table.PlaceCardFromDeck | src/main/java/bguspl/set/ex/Table.java:138-140 | `deck.get(0)` on an empty pile fails; otherwise the head of the pile is placed as `PlaceCard` does |
| Tables.Table.RemoveCardWorker | src/main/java/bguspl/set/ex/Table.java:148-166 | an illegal slot throws and nothing changes. Otherwise every player's token on the slot is removed, the slot and its card's entry are nulled, the former card (or null) is returned, and the invariant is kept |
| Tables.Table.RemoveCard | src/main/java/bguspl/set/ex/Table.java:173-175 | the effect of `RemoveCardWorker`, without the returned card |
| Tables.Table.RemoveCardAndReturnToDeck | src/main/java/bguspl/set/ex/Table.java:142-146 | the removed card, if any, is appended to the pile, so the cards in play (pile plus grid) stay the same set |
| Tables.Table.Token | src/main/java/bguspl/set/ex/Table.java:177-188 | a token held on the slot is removed and the result is true. Otherwise the result is true iff a token was placed (the slot holds a card, the player is below `featureSize`), and the tokens grow by exactly that slot. Other players' tokens are unchanged |
| Tables.Table.PlaceToken | src/main/java/bguspl/set/ex/Table.java:196-208 | appends the slot only when it holds a card, the player is below `featureSize` and holds no token there; otherwise nothing changes; the invariant (no duplicates, at most `featureSize`, only occupied slots) is kept |
| Tables.Table.RemoveToken | src/main/java/bguspl/set/ex/Table.java:226-240 | true iff the player had a token on the slot; exactly the first occurrence is removed; other players' tokens are unchanged |
| Seqs.Remove | src/main/java/bguspl/set/ex/Table.java:234 | `Vector.remove(Object)`: when the element occurs, exactly its first occurrence is dropped and the elements before and after it keep their order (so the list is one shorter); otherwise the list is unchanged |
| Seqs.RemoveDistinct | src/main/java/bguspl/set/ex/Table.java:234 | on a list without duplicates, removing a slot leaves exactly the other slots, still without duplicates |
| Seqs.RemoveAllSelf | src/main/java/bguspl/set/ex/Dealer.java:146-150 | removing a claim's tokens one by one from the claimant's own token list leaves it empty |
| Seqs.Insert | src/main/java/bguspl/set/ex/Dealer.java:229-234 | adding to the priority queue keeps it in ascending order and adds exactly the id (as a multiset), duplicates included |
| Queues.WaitNotifyBlockingQueue.constructor | src/main/java/bguspl/set/ex/WaitNotifyBlockingQueue.java:12-16 | the capacity is fixed at construction and the queue starts empty |
| Queues.WaitNotifyBlockingQueue.Add | src/main/java/bguspl/set/ex/WaitNotifyBlockingQueue.java:19-30 | proceeds only below capacity, appends the item at the end and returns true; the size never exceeds the capacity |
| Queues.WaitNotifyBlockingQueue.Pop | src/main/java/bguspl/set/ex/WaitNotifyBlockingQueue.java:33-43 | proceeds only on a non-empty queue, returns the oldest item and removes exactly it |
| Queues.FirstInFirstOut | src/main/java/bguspl/set/ex/WaitNotifyBlockingQueue.java:19-43 | along any non-blocking run of adds and pops, the items popped followed by those left are the initial items followed by those added, in order; the size stays within capacity |
| Queues.WaitNotifyBlockingQueue.ClearAsWritten | src/main/java/bguspl/set/ex/WaitNotifyBlockingQueue.java:46-54 | `clear` as written empties the queue, and raises `IllegalMonitorStateException` exactly when the queue was non-empty |
| Queues.ClearOnNonEmptyQueueRaises | src/main/java/bguspl/set/ex/Player.java:148 | a queue holding one key press makes the player's `clear` call raise |
| Queues.WaitNotifyBlockingQueue.Clear | src/main/java/bguspl/set/ex/WaitNotifyBlockingQueue.java:46-54 | the evidently intended `clear`: the queue is empty afterwards |
| Players.Player.constructor | src/main/java/bguspl/set/ex/Player.java:92-99 | a fresh, empty key-press queue of capacity `featureSize`; score 0 and all flags false |
| Players.Player.KeyPressed | src/main/java/bguspl/set/ex/Player.java:215-218 | a human player's key press is queued at the end; a computer player's is ignored |
| Players.Player.GenerateKeyPress | src/main/java/bguspl/set/ex/Player.java:192-194 | the computer player's thread appends its chosen slot to its own queue directly, proceeding only below capacity |
| Players.Player.TakeAction | src/main/java/bguspl/set/ex/Player.java:119-128 | pops the oldest key press and toggles the token (`Token`). A set is declared iff the press put a new token on an occupied slot and brought the player's tokens to exactly `featureSize`; other players' tokens are unchanged |
| Players.DeclaresExactlyOnCompletingToken | src/main/java/bguspl/set/ex/Player.java:124-128 | `tokenAmount == featureSize && tokensChanged` holds exactly when a new token completed the claim, never when a token was taken back |
| Players.Player.BeginAwaitVerdict | src/main/java/bguspl/set/ex/Player.java:131 | after declaring, the player waits for the verdict with both verdict flags clear |
| Players.Player.Point | src/main/java/bguspl/set/ex/Player.java:226-240 | proceeds only once the player waits for a verdict; sets the point flag and raises the score by exactly one |
| Players.Player.Penalty | src/main/java/bguspl/set/ex/Player.java:245-256 | proceeds only once the player waits for a verdict; sets the penalty flag and leaves the score unchanged |
| Players.FreezeFor | src/main/java/bguspl/set/ex/Player.java:137-140 | the penalty freeze iff the penalty flag is set; the point freeze iff only the point flag is; no freeze otherwise |
| Players.Player.HandleVerdict | src/main/java/bguspl/set/ex/Player.java:135-148 | chooses the freeze from the flags (penalty first), leaves all three flags false and the score unchanged, and empties the key-press queue through the corrected `Clear` of the finding below (the `clear` as written raises on a non-empty queue) |
| Dealers.Dealer.constructor | src/main/java/bguspl/set/ex/Dealer.java:46-58 | the dealer starts with `terminate` false and no contenders, over the given table and players (player `i` has id `i`) |
| Dealers.Dealer.DeclareSet | src/main/java/bguspl/set/ex/Dealer.java:229-234 | the id joins the contenders in ascending order; a duplicate is not rejected |
| Dealers.Dealer.EvaluateClaim | src/main/java/bguspl/set/ex/Dealer.java:126-142 | the claim is a set iff the token snapshot has exactly `featureSize` entries, every token slot is occupied and `testSet` accepts the cards read (-1 for an empty slot) |
| Dealers.Dealer.ProcessClaim | src/main/java/bguspl/set/ex/Dealer.java:126-153 | a set earns the claimant a point: every slot of the snapshot is emptied, and exactly those slots leave every player's tokens. Otherwise a penalty with the table unchanged. Other players' scores and waiting flags are unchanged |
| Dealers.Dealer.RemoveClaimedCards | src/main/java/bguspl/set/ex/Dealer.java:146-150 | removing the card of each claimed slot in turn leaves the grid as `ClearSlots` of the claim and every player's tokens with the claimed slots removed; the invariant is kept |
| Dealers.ClearSlotsAt | src/main/java/bguspl/set/ex/Dealer.java:146-150 | removing the cards of the claimed slots one after the other empties exactly those slots and keeps every other card |
| Dealers.Dealer.JudgeHead | src/main/java/bguspl/set/ex/Dealer.java:124-153 | takes the smallest player id off the contenders and judges its claim (`Judged`): a point exactly when the claim is a set on the current grid, and then the claimed slots leave the grid and every token list; after a penalty grid and tokens are unchanged. Only that player's score (one more on a point) and flags change: it waits, with the flag of its verdict set; the draw pile is unchanged |
| Dealers.Dealer.RemoveCardsFromTable | src/main/java/bguspl/set/ex/Dealer.java:119-159 | drains the contenders in ascending player id. Claim `k` gets verdict `log[k]` and takes the grid and tokens from snapshot `rounds[k]` to `rounds[k + 1]` as `Judged` says: a point exactly when the claim is a set on that snapshot. Each score gains exactly its points in the log; each judged player waits, and its point or penalty flag is set exactly when the log gives it that verdict (or it was set before); the draw pile is unchanged |
| Dealers.Dealer.PlaceCardsOnTable | src/main/java/bguspl/set/ex/Dealer.java:164-172 | visiting the empty slots in the shuffled order, each receives the next card of the pile while the pile lasts (`Refill`). Afterwards the pile is empty or no slot is; only previously empty slots received cards; no card enters or leaves play |
| Dealers.RefillPlaces | src/main/java/bguspl/set/ex/Dealer.java:168-170 | the `j`-th slot visited receives the `j`-th card of the pile while cards last, and every other slot keeps its content |
| Dealers.RefillOutcome | src/main/java/bguspl/set/ex/Dealer.java:164-172 | refilling every empty slot either uses up the pile or fills the grid, and leaves the cards already on the grid where they were |
| Dealers.Dealer.RemoveAllCardsFromTable | src/main/java/bguspl/set/ex/Dealer.java:200-206 | afterwards every slot is empty and nobody holds a token. The pile is the old pile followed by the grid's cards in the shuffled slot order, and it holds exactly the cards that were in play |
| Dealers.Dealer.ShouldFinish | src/main/java/bguspl/set/ex/Dealer.java:112-114 | the game ends when terminated or when no set is found in the draw pile; on the empty grid of its call site the pile it searches is every card still in play |
| Dealers.Dealer.AnnounceWinners | src/main/java/bguspl/set/ex/Dealer.java:211-227 | for a non-empty player array, the winners are exactly the indices whose score is the maximum, strictly ascending, and never empty |

## Left out

- Threads and monitors are not modelled: `synchronized`, `wait`/`notifyAll`, `declareSetLock`, `myLock`, the initialisation handshake, `join` and interrupts. Each blocking wait is a precondition instead. As a consequence, the `InterruptedException` branch at `Player.java:146` (an interrupted wait leaves the flags set) is not modelled.
- Time is not modelled: `Thread.sleep` (the table delay), `freeze`, `timerLoop`, `sleepUntilWokenOrTimeout`, `updateTimerDisplay` and `reshuffleTime`. They depend on the clock. `HandleVerdict` returns which freeze is served, not its duration.
- The user interface and the logger (`env.ui.*`, `env.logger`), `hints`, `setOnTable` and `cardsToFeatures` are left out. They are output only, or calls into external code.
- Randomness is a parameter:
  - the shuffled slot lists of `placeCardsOnTable` and `removeAllCardsFromTable` are the caller's `order`;
  - the computer player's random slot is the `slot` argument of `GenerateKeyPress`, which models its thread's `inputBuffer.add`; the loop around it (`while (!terminate)`) is not modelled;
  - the shuffled draw pile of the table constructors is left unspecified in order; only its contents are stated.
- `Tables.Table.constructor` builds the pile in id order, and its contract says nothing about order. `Collections.shuffle` at `Table.java:64` is therefore not modelled.
- `Tables.Table.WithGrid` takes the number of cards from `cardToSlot.Length` rather than from `env.config.deckSize`. It requires the given arrays to be inverses already; the Java test constructor trusts its caller for that.
- The dealer's own `deck` field is not modelled. Its only use (`Dealer.java:148`) removes a card id equal to a slot number; it is bookkeeping with no effect on play. The initialisation of that field (`Dealer.java:50`) is left out as well.
- Negative slot numbers are excluded by the type `nat`, because `legalSlot` only checks the upper bound.
- The `countCards()` call inside `point` (`Player.java:238`) has no effect on the state and is omitted.
- `Dealer.run`, `Player.run` as a loop, `terminate()` and the composition of player and dealer threads are not modelled. One pass of the player loop is `TakeAction`, then, on a declaration, the dealer's `DeclareSet` (`Player.java:128`), `BeginAwaitVerdict` and `HandleVerdict`; the dealer's verdict is `Point` or `Penalty`.
- `Dealers.Dealer.RemoveCardsFromTable` returns its verdicts and the snapshots between them as ghost values; the source keeps no such log.
- `Tables.Table.HasCard` requires a slot on the grid: for a slot past the end the source throws `ArrayIndexOutOfBoundsException` (`Table.java:108`), which no caller reaches, and that case is not modelled.
- `AnnounceWinners` requires a non-empty player array. For an empty one the source throws on `players[0]` (`Dealer.java:212`), and that case is not modelled.
- Claim order follows the code, which uses a `PriorityQueue`: claims are judged in ascending player id, not in arrival order, and a player id may appear twice.

## Findings

| source | as written | input that shows it | evidently intended | confidence | as-written member | corrected member |
|---|---|---|---|---|---|---|
| src/main/java/bguspl/set/ex/WaitNotifyBlockingQueue.java:46-54 | `clear` is not `synchronized` and calls `this.notifyAll()`. Its caller (`Player.java:148`) does not hold the queue's monitor, so `IllegalMonitorStateException` is raised whenever the queue was non-empty | a player declares a set while one more key press is queued; the key-press queue then holds one item when `clear` is called | `clear` empties the queue under its monitor and wakes waiting producers | not executed | Queues.WaitNotifyBlockingQueue.ClearAsWritten, Queues.ClearOnNonEmptyQueueRaises | Queues.WaitNotifyBlockingQueue.Clear |
