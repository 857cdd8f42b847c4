/**
 * The bounded FIFO of pending key presses. Each method is `synchronized` in the source and blocks
 * while it cannot proceed; here every such wait is a precondition.
 */
module Queues {

  class WaitNotifyBlockingQueue<T> {
    /** The capacity, fixed at construction. */
    const maxSize: nat
    /** The queued items, oldest first. */
    var items: seq<T>

    ghost predicate Valid()
      reads this
    {
      |items| <= maxSize
    }

    constructor (maxSize: nat)
      ensures Valid() && this.maxSize == maxSize && items == []
    {
      this.maxSize := maxSize;
      items := [];
    }

    /** Appends `item`; proceeds only once the queue is below capacity, and always reports success. */
    method Add(item: T) returns (r: bool)
      requires Valid() && |items| < maxSize
      modifies this
      ensures Valid() && r
      ensures items == old(items) + [item]
    {
      items := items + [item];
      r := true;
    }

    /** Removes and returns the oldest item; proceeds only once the queue is non-empty. */
    method Pop() returns (t: T)
      requires Valid() && items != []
      modifies this
      ensures Valid()
      ensures t == old(items)[0] && items == old(items)[1..]
    {
      t := items[0];
      items := items[1..];
    }

    /** Empties the queue (the evidently intended `clear`). */
    method Clear()
      modifies this
      ensures Valid() && items == []
    {
      while |items| > 0
        decreases |items|
      {
        items := [];
      }
    }

    /**
     * `clear` as written: it does not hold the queue's monitor, so the `notifyAll` inside its loop
     * raises `IllegalMonitorStateException` as soon as the queue was non-empty, after emptying it.
     * Returns whether that exception is raised.
     */
    method ClearAsWritten() returns (raised: bool)
      modifies this
      ensures Valid() && items == []
      ensures raised <==> old(items) != []
    {
      raised := false;
      while |items| > 0 && !raised
        invariant raised ==> items == [] && old(items) != []
        invariant !raised ==> items == old(items)
        decreases |items|
      {
        items := [];
        raised := true;
      }
    }
  }

  /** The caller of `clear` does not hold the queue's monitor: a queue holding one key press makes it throw. */
  method ClearOnNonEmptyQueueRaises(slot: nat) returns (raised: bool)
    ensures raised
  {
    var q := new WaitNotifyBlockingQueue<nat>(1);
    var _ := q.Add(slot);
    raised := q.ClearAsWritten();
  }

  /** The two queue operations a thread can perform. */
  datatype QueueOp<T> = AddOp(item: T) | PopOp

  /** Whether every operation of `ops`, applied in order to a queue holding `items`, proceeds without blocking. */
  ghost predicate Proceeds<T>(items: seq<T>, ops: seq<QueueOp<T>>, maxSize: nat)
    decreases |ops|
  {
    ops == [] ||
    match ops[0]
    case AddOp(x) => |items| < maxSize && Proceeds(items + [x], ops[1..], maxSize)
    case PopOp => items != [] && Proceeds(items[1..], ops[1..], maxSize)
  }

  /** The items added by `ops`, in order. */
  function Added<T>(ops: seq<QueueOp<T>>): seq<T> {
    if ops == [] then []
    else match ops[0]
      case AddOp(x) => [x] + Added(ops[1..])
      case PopOp => Added(ops[1..])
  }

  /** The items `ops` pops, in order, from a queue holding `items` (as `Add` and `Pop` specify). */
  function Popped<T>(items: seq<T>, ops: seq<QueueOp<T>>): seq<T>
    decreases |ops|
  {
    if ops == [] then []
    else match ops[0]
      case AddOp(x) => Popped(items + [x], ops[1..])
      case PopOp => if items == [] then Popped(items, ops[1..]) else [items[0]] + Popped(items[1..], ops[1..])
  }

  /** What the queue holds after `ops`. */
  function Final<T>(items: seq<T>, ops: seq<QueueOp<T>>): seq<T>
    decreases |ops|
  {
    if ops == [] then items
    else match ops[0]
      case AddOp(x) => Final(items + [x], ops[1..])
      case PopOp => Final(if items == [] then items else items[1..], ops[1..])
  }

  /** One `add` step of a trace. */
  lemma AddStep<T>(items: seq<T>, ops: seq<QueueOp<T>>, maxSize: nat)
    requires ops != [] && ops[0].AddOp? && Proceeds(items, ops, maxSize)
    ensures |items| < maxSize && Proceeds(items + [ops[0].item], ops[1..], maxSize)
    ensures Popped(items, ops) == Popped(items + [ops[0].item], ops[1..])
    ensures Final(items, ops) == Final(items + [ops[0].item], ops[1..])
    ensures Added(ops) == [ops[0].item] + Added(ops[1..])
  {
  }

  /** One `pop` step of a trace. */
  lemma PopStep<T>(items: seq<T>, ops: seq<QueueOp<T>>, maxSize: nat)
    requires ops != [] && ops[0].PopOp? && Proceeds(items, ops, maxSize)
    ensures items != [] && Proceeds(items[1..], ops[1..], maxSize)
    ensures Popped(items, ops) == [items[0]] + Popped(items[1..], ops[1..])
    ensures Final(items, ops) == Final(items[1..], ops[1..])
    ensures Added(ops) == Added(ops[1..])
  {
  }

  /** Regrouping after an `add`. */
  lemma AppendShift<T>(items: seq<T>, x: T, a: seq<T>)
    ensures items + ([x] + a) == (items + [x]) + a
  {
  }

  /** Regrouping after a `pop`. */
  lemma PopShift<T>(items: seq<T>, p: seq<T>, f: seq<T>, a: seq<T>)
    requires items != [] && p + f == items[1..] + a
    ensures ([items[0]] + p) + f == items + a
  {
    calc {
      ([items[0]] + p) + f;
      [items[0]] + (p + f);
      [items[0]] + (items[1..] + a);
      ([items[0]] + items[1..]) + a;
      { assert [items[0]] + items[1..] == items; }
      items + a;
    }
  }

  /**
   * First in, first out: along any run in which no operation blocks, the items popped followed by
   * those still queued are exactly the items first queued followed by those added, in order; and
   * the queue never holds more than its capacity.
   */
  lemma {:induction false} FirstInFirstOut<T>(items: seq<T>, ops: seq<QueueOp<T>>, maxSize: nat)
    requires |items| <= maxSize && Proceeds(items, ops, maxSize)
    ensures Popped(items, ops) + Final(items, ops) == items + Added(ops)
    ensures |Final(items, ops)| <= maxSize
    decreases |ops|
  {
    if ops != [] {
      if ops[0].AddOp? {
        var x, rest := ops[0].item, ops[1..];
        AddStep(items, ops, maxSize);
        FirstInFirstOut(items + [x], rest, maxSize);
        AppendShift(items, x, Added(rest));
      } else {
        var rest := ops[1..];
        PopStep(items, ops, maxSize);
        FirstInFirstOut(items[1..], rest, maxSize);
        PopShift(items, Popped(items[1..], rest), Final(items[1..], rest), Added(rest));
      }
    }
  }
}
