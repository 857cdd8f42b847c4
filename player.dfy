/**
 * A player's bookkeeping: the score, the queue of pending key presses and the three flags through
 * which the dealer hands back the verdict on a declared set. The player thread's blocking points
 * (waiting for a key press, for the dealer's verdict) are preconditions of the steps below.
 */
module Players {
  import opened Wrappers
  import opened Seqs
  import opened Tables
  import opened Queues

  /** The freeze a player serves after a verdict. */
  datatype Freeze = NoFreeze | PenaltyFreeze | PointFreeze

  /** The freeze chosen from the two verdict flags: a penalty takes precedence over a point. */
  function FreezeFor(penalty: bool, point: bool): (f: Freeze)
    ensures f == PenaltyFreeze <==> penalty
    ensures f == PointFreeze <==> !penalty && point
    ensures f == NoFreeze <==> !penalty && !point
  {
    if penalty then PenaltyFreeze
    else if point then PointFreeze
    else NoFreeze
  }

  /**
   * Whether pressing `slot` with tokens `t` (on grid `g`) declares a set: the token toggle changed
   * the tokens and the player now holds exactly `featureSize` of them. This is the case exactly
   * when the key placed a new token on an occupied slot that completes the claim.
   */
  lemma DeclaresExactlyOnCompletingToken(t: seq<nat>, g: seq<Option<nat>>, featureSize: nat, slot: nat)
    requires TokensOk(t, g, featureSize)
    ensures var changed := slot in t || (slot < |g| && g[slot].Some? && |t| < featureSize);
            var after := if slot in t then Remove(t, slot) else if changed then t + [slot] else t;
            (|after| == featureSize && changed) <==> slot !in t && slot < |g| && g[slot].Some? && |t| + 1 == featureSize
  {
  }

  class Player {
    /** The player's id, its index in the dealer's array. */
    const id: nat
    /** Whether key presses come from the keyboard (otherwise from the computer player). */
    const human: bool
    /** The shared table. */
    const table: Table
    /** The pending key presses, holding at most `featureSize` of them. */
    const inputBuffer: WaitNotifyBlockingQueue<nat>
    /** The score; a `nat`, so never negative. */
    var score: nat
    /** Set while the player waits for the dealer's verdict on a declared set. */
    var waitingForDeclareResult: bool
    /** Set by the dealer when the declared set was wrong. */
    var declareResultIsPenalty: bool
    /** Set by the dealer when the declared set was right. */
    var declareResultIsPoint: bool

    /** The queue's capacity is `featureSize`, and a verdict is only ever handed to a waiting player. */
    ghost predicate Valid()
      reads this, inputBuffer
    {
      && inputBuffer.Valid()
      && inputBuffer.maxSize == table.featureSize
      && ((declareResultIsPoint || declareResultIsPenalty) ==> waitingForDeclareResult)
    }

    constructor (table: Table, id: nat, human: bool)
      ensures Valid() && fresh(inputBuffer)
      ensures this.table == table && this.id == id && this.human == human
      ensures inputBuffer.items == [] && score == 0
      ensures !waitingForDeclareResult && !declareResultIsPenalty && !declareResultIsPoint
    {
      this.table := table;
      this.id := id;
      this.human := human;
      inputBuffer := new WaitNotifyBlockingQueue<nat>(table.featureSize);
      score := 0;
      waitingForDeclareResult, declareResultIsPenalty, declareResultIsPoint := false, false, false;
    }

    /** A key press: queued for a human player, ignored for a computer player. Blocks while the queue is full. */
    method KeyPressed(slot: nat)
      requires Valid() && (human ==> |inputBuffer.items| < inputBuffer.maxSize)
      modifies inputBuffer
      ensures Valid()
      ensures inputBuffer.items == if human then old(inputBuffer.items) + [slot] else old(inputBuffer.items)
    {
      if human {
        var _ := inputBuffer.Add(slot);
      }
    }

    /**
     * The computer player's thread queues a key press on a randomly chosen slot (the choice is the
     * parameter), bypassing `KeyPressed`. Blocks while the queue is full.
     */
    method GenerateKeyPress(slot: nat)
      requires Valid() && !human && |inputBuffer.items| < inputBuffer.maxSize
      modifies inputBuffer
      ensures Valid()
      ensures inputBuffer.items == old(inputBuffer.items) + [slot]
    {
      var _ := inputBuffer.Add(slot);
    }

    /**
     * One pass of the player loop up to the declaration: takes the oldest key press, toggles the
     * token on that slot and reports whether a set is declared.
     */
    method TakeAction() returns (slot: nat, declare: bool)
      requires Valid() && table.Valid() && id < table.playerTokens.Length
      requires inputBuffer.items != []
      modifies inputBuffer, table.playerTokens
      ensures Valid() && table.Valid()
      ensures slot == old(inputBuffer.items[0]) && inputBuffer.items == old(inputBuffer.items[1..])
      ensures declare <==> && slot !in old(table.playerTokens[id])
                           && slot < table.slotToCard.Length && table.slotToCard[slot].Some?
                           && |old(table.playerTokens[id])| + 1 == table.featureSize
      ensures forall p :: 0 <= p < table.playerTokens.Length && p != id ==> table.playerTokens[p] == old(table.playerTokens[p])
      ensures table.playerTokens[id] == if slot in old(table.playerTokens[id]) then Remove(old(table.playerTokens[id]), slot)
                                         else if slot < table.slotToCard.Length && table.slotToCard[slot].Some?
                                                 && |old(table.playerTokens[id])| < table.featureSize
                                         then old(table.playerTokens[id]) + [slot]
                                         else old(table.playerTokens[id])
    {
      ghost var t := table.playerTokens[id];
      slot := inputBuffer.Pop();
      var changed := table.Token(id, slot);
      declare := table.TokenAmount(id) == table.featureSize && changed;
      DeclaresExactlyOnCompletingToken(t, table.slotToCard[..], table.featureSize, slot);
    }

    /** After declaring a set (and the dealer registering it), the player waits for the verdict. */
    method BeginAwaitVerdict()
      requires Valid() && !declareResultIsPenalty && !declareResultIsPoint
      modifies this
      ensures Valid() && waitingForDeclareResult
      ensures !declareResultIsPenalty && !declareResultIsPoint && score == old(score)
    {
      waitingForDeclareResult := true;
    }

    /** A point: proceeds once the player waits for a verdict, sets the point flag and raises the score by one. */
    method Point()
      requires Valid() && waitingForDeclareResult
      modifies this
      ensures Valid()
      ensures score == old(score) + 1 && declareResultIsPoint
      ensures waitingForDeclareResult && declareResultIsPenalty == old(declareResultIsPenalty)
    {
      declareResultIsPoint := true;
      score := score + 1;
    }

    /** A penalty: proceeds once the player waits for a verdict, sets the penalty flag; the score is unchanged. */
    method Penalty()
      requires Valid() && waitingForDeclareResult
      modifies this
      ensures Valid()
      ensures score == old(score) && declareResultIsPenalty
      ensures waitingForDeclareResult && declareResultIsPoint == old(declareResultIsPoint)
    {
      declareResultIsPenalty := true;
    }

    /**
     * The player wakes from waiting for the verdict: chooses the freeze (a penalty before a point),
     * resets all three flags and discards the key presses queued meanwhile.
     */
    method HandleVerdict() returns (f: Freeze)
      requires Valid() && waitingForDeclareResult
      modifies this, inputBuffer
      ensures Valid()
      ensures f == FreezeFor(old(declareResultIsPenalty), old(declareResultIsPoint))
      ensures !waitingForDeclareResult && !declareResultIsPenalty && !declareResultIsPoint
      ensures score == old(score) && inputBuffer.items == []
    {
      waitingForDeclareResult := false;
      f := FreezeFor(declareResultIsPenalty, declareResultIsPoint);
      declareResultIsPenalty := false;
      declareResultIsPoint := false;
      inputBuffer.Clear();
    }
  }
}
