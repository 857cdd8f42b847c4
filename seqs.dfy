/** Operations on sequences of ids (cards, slots, players) that mirror the list and vector operations of the game state. */
module Seqs {

  /** No element occurs twice. */
  ghost predicate Distinct(s: seq<nat>) {
    forall i, j :: 0 <= i < j < |s| ==> s[i] != s[j]
  }

  /** Non-decreasing order. */
  ghost predicate Sorted(s: seq<nat>) {
    forall i, j :: 0 <= i < j < |s| ==> s[i] <= s[j]
  }

  /** `r` is `s` without its element at `k`, which is the first occurrence of `x`. */
  ghost predicate RemovedAt(s: seq<nat>, x: nat, r: seq<nat>, k: int) {
    0 <= k < |s| && s[k] == x && x !in s[..k] && r == s[..k] + s[k + 1..]
  }

  /**
   * Removes the first occurrence of `x`, as `List.remove(Object)` and `Vector.remove(Object)` do:
   * the elements before and after it keep their order.
   */
  function Remove(s: seq<nat>, x: nat): (r: seq<nat>)
    ensures x in s ==> exists k :: RemovedAt(s, x, r, k)
    ensures x in s ==> |r| == |s| - 1
    ensures x !in s ==> r == s
  {
    if s == [] then []
    else if s[0] == x then
      assert RemovedAt(s, x, s[1..], 0);
      s[1..]
    else
      var rest := Remove(s[1..], x);
      assert x in s ==> exists k :: RemovedAt(s, x, [s[0]] + rest, k) by {
        if x in s {
          assert x in s[1..];
          var j :| RemovedAt(s[1..], x, rest, j);
          RemovedAtCons(s, x, rest, j);
        }
      }
      [s[0]] + rest
  }

  /** A removal from the tail of `s`, behind a head other than `x`, is a removal from `s` one place later. */
  lemma RemovedAtCons(s: seq<nat>, x: nat, rest: seq<nat>, j: int)
    requires s != [] && s[0] != x && RemovedAt(s[1..], x, rest, j)
    ensures RemovedAt(s, x, [s[0]] + rest, j + 1)
  {
    assert s[..j + 1] == [s[0]] + s[1..][..j];
    assert s[j + 2..] == s[1..][j + 1..];
  }

  /** The set of elements of a sequence. */
  function Elems(s: seq<nat>): set<nat> {
    set y | y in s
  }

  /** A sequence with no elements is empty. */
  lemma NoElemsEmpty(s: seq<nat>)
    ensures Elems(s) == {} ==> s == []
  {
    if s != [] {
      assert s[0] in Elems(s);
    }
  }

  /** The tail of a sequence without duplicates has none either, and lacks the head. */
  lemma Uncons(s: seq<nat>)
    requires Distinct(s) && s != []
    ensures Distinct(s[1..]) && s[0] !in Elems(s[1..])
    ensures Elems(s) == {s[0]} + Elems(s[1..])
  {
    var tail := s[1..];
    forall i, j | 0 <= i < j < |tail| ensures tail[i] != tail[j] {
      assert tail[i] == s[i + 1] && tail[j] == s[j + 1];
    }
    forall i | 0 <= i < |tail| ensures tail[i] != s[0] {
      assert tail[i] == s[i + 1];
    }
    assert s == [s[0]] + tail;
  }

  /** Putting a new element in front of a sequence without duplicates keeps it without duplicates. */
  lemma Cons(y: nat, r: seq<nat>)
    requires Distinct(r) && y !in Elems(r)
    ensures Distinct([y] + r)
    ensures Elems([y] + r) == {y} + Elems(r)
  {
    var t := [y] + r;
    forall i, j | 0 <= i < j < |t| ensures t[i] != t[j] {
      assert t[j] == r[j - 1];
      if i == 0 {
        assert r[j - 1] in Elems(r);
      } else {
        assert t[i] == r[i - 1];
      }
    }
  }

  /** On a sequence without duplicates, removing `x` leaves exactly the other elements, still without duplicates. */
  lemma {:induction false} RemoveDistinct(s: seq<nat>, x: nat)
    requires Distinct(s)
    ensures Distinct(Remove(s, x))
    ensures Elems(Remove(s, x)) == Elems(s) - {x}
  {
    if s != [] {
      Uncons(s);
      if s[0] != x {
        RemoveDistinct(s[1..], x);
        Cons(s[0], Remove(s[1..], x));
      }
    }
  }

  /** Removes the elements of `xs` one after the other, first to last. */
  function RemoveAll(s: seq<nat>, xs: seq<nat>): seq<nat>
    decreases |xs|
  {
    if xs == [] then s else Remove(RemoveAll(s, xs[..|xs| - 1]), xs[|xs| - 1])
  }

  /** On a sequence without duplicates, removing every element of `xs` leaves exactly the elements not in `xs`. */
  lemma {:induction false} RemoveAllDistinct(s: seq<nat>, xs: seq<nat>)
    requires Distinct(s)
    ensures Distinct(RemoveAll(s, xs))
    ensures Elems(RemoveAll(s, xs)) == Elems(s) - Elems(xs)
    decreases |xs|
  {
    if xs != [] {
      var front, last := xs[..|xs| - 1], xs[|xs| - 1];
      var r := RemoveAll(s, front);
      assert RemoveAll(s, xs) == Remove(r, last);
      RemoveAllDistinct(s, front);
      RemoveDistinct(r, last);
      assert Elems(xs) == Elems(front) + {last} by {
        assert xs == front + [last];
      }
    }
  }

  /** Removing from a sequence without duplicates all of its own elements leaves nothing. */
  lemma RemoveAllSelf(s: seq<nat>)
    requires Distinct(s)
    ensures RemoveAll(s, s) == []
  {
    RemoveAllDistinct(s, s);
    NoElemsEmpty(RemoveAll(s, s));
  }

  /** Inserts `x` into a sorted sequence, keeping it sorted: the priority-queue view of `PriorityQueue.add`. */
  function Insert(s: seq<nat>, x: nat): (r: seq<nat>)
    requires Sorted(s)
    ensures Sorted(r)
    ensures multiset(r) == multiset(s) + multiset{x}
  {
    if s == [] then [x]
    else if x <= s[0] then
      assert s == [s[0]] + s[1..];
      SortedCons(x, s);
      [x] + s
    else
      assert s == [s[0]] + s[1..];
      var rest := Insert(s[1..], x);
      forall k | 0 <= k < |rest| ensures s[0] <= rest[k] {
        assert rest[k] in multiset(rest);
        assert rest[k] in s[1..] || rest[k] == x;
      }
      SortedCons(s[0], rest);
      [s[0]] + rest
  }

  /** A lower bound of a sorted sequence can go in front of it. */
  lemma SortedCons(y: nat, r: seq<nat>)
    requires Sorted(r) && forall k :: 0 <= k < |r| ==> y <= r[k]
    ensures Sorted([y] + r)
  {
    var t := [y] + r;
    forall i, j | 0 <= i < j < |t| ensures t[i] <= t[j] {
      assert t[j] == r[j - 1];
      if i > 0 {
        assert t[i] == r[i - 1];
      }
    }
  }
}
