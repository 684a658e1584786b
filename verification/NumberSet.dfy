/** The number allocator behind account, session and subscription ids. */
module NumberSet {

  const UINT_MAX := 0xffff_ffff

  /** A number the scan can still reach: after wrapping it starts again at 1, so 0 only counts when it comes first. */
  predicate Available(used: set<nat>, next: nat, n: nat) {
    n < UINT_MAX && n !in used && (n >= 1 || next == 0)
  }

  /** allocate_numset_num runs for ever once every number is taken, so callers need one to be left. */
  ghost predicate CanAllocate(used: set<nat>, next: nat) {
    next < UINT_MAX && exists n :: Available(used, next, n)
  }

  /** n is the first free number from next upward, or, with none there, the first free one from 1. */
  ghost predicate IsNext(used: set<nat>, next: nat, n: nat) {
    && Available(used, next, n)
    && if n >= next then forall k :: next <= k < n ==> k in used
       else (forall k :: next <= k < UINT_MAX ==> k in used) && (forall k :: 1 <= k < n ==> k in used)
  }

  class NumberPool {
    var used: set<nat>
    var next: nat

    constructor (first: nat)
      requires first < UINT_MAX
      ensures used == {} && next == first
    {
      used, next := {}, first;
    }

    /** allocate_numset_num: the for loop's increment also follows the reset of i to 0. */
    method Allocate() returns (n: nat)
      requires CanAllocate(used, next)
      modifies this
      ensures IsNext(old(used), old(next), n)
      ensures used == old(used) + {n} && next == n
      ensures n < 0xffff_ffff && n !in old(used)
    {
      ghost var free :| Available(used, next, free);
      var i := next;
      ghost var wrapped := false;
      while i == UINT_MAX || i in used
        invariant i <= UINT_MAX
        invariant !wrapped ==> next <= i && forall k :: next <= k < i ==> k in used
        invariant wrapped ==> 1 <= i <= free && (forall k :: next <= k < UINT_MAX ==> k in used)
                              && (forall k :: 1 <= k < i ==> k in used)
        decreases !wrapped, UINT_MAX - i
      {
        if i == UINT_MAX {
          i := 0;
          wrapped := true;
        }
        i := i + 1;
      }
      used := used + {i};
      next := i;
      n := i;
    }

    /** delete_numset_num */
    method Delete(n: nat)
      modifies this`used
      ensures used == old(used) - {n}
    {
      used := used - {n};
    }
  }

  /** The scan has one answer. */
  lemma NextIsUnique(used: set<nat>, next: nat, m: nat, n: nat)
    requires IsNext(used, next, m) && IsNext(used, next, n)
    ensures m == n
  {}

  /** After the first turn, 0 is never handed out again, even when it is free. */
  lemma ZeroOnlyFirst(used: set<nat>, next: nat, n: nat)
    requires IsNext(used, next, n) && next > 0
    ensures n != 0
  {}
}
