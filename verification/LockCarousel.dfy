/** A set of locks kept in ascending order, to be taken in that order. */
module LockCarousel {

  ghost predicate Ascending(s: seq<nat>) {
    forall i: nat, j: nat {:trigger s[i], s[j]} | i < j < |s| :: s[i] < s[j]
  }

  /** Putting x between the smaller and the larger locks keeps the order and adds x. */
  lemma InsertedAscending(s: seq<nat>, i: nat, x: nat)
    requires Ascending(s) && i <= |s| && (forall k: nat | k < i :: s[k] < x) && (forall k: nat | i <= k < |s| :: x < s[k])
    ensures var t := s[..i] + [x] + s[i..];
      Ascending(t) && (set y | y in t) == (set y | y in s) + {x} && x !in s
  {
    var t := s[..i] + [x] + s[i..];
    assert s == s[..i] + s[i..];
    forall y ensures y in t <==> y in s || y == x {}
  }

  class Carousel {
    const locks: array<nat>
    var count: nat

    ghost predicate Valid()
      reads this, locks
    {
      count <= locks.Length && Ascending(locks[..count])
    }

    ghost function Members(): set<nat>
      reads this, locks
      requires count <= locks.Length
    {
      set x | x in locks[..count]
    }

    constructor (max: nat)
      ensures Valid() && Members() == {} && locks.Length == max && fresh(locks)
    {
      locks := new nat[max](_ => 0);
      count := 0;
    }

    /** Add a lock; false if it is there already.  There must be room for a new one. */
    method Insert(ptr: nat) returns (added: bool)
      requires Valid() && (ptr in Members() || count < locks.Length)
      modifies this, locks
      ensures Valid() && Members() == old(Members()) + {ptr}
      ensures added <==> ptr !in old(Members())
      ensures count == old(count) + if added then 1 else 0
    {
      var i := 0;
      while i < count
        invariant i <= count && forall k: nat | k < i :: locks[k] < ptr
      {
        if locks[i] == ptr {
          assert ptr in locks[..count];
          assert Members() + {ptr} == Members();
          return false;
        }
        if locks[i] > ptr {
          break;
        }
        i := i + 1;
      }
      ghost var s := locks[..count];
      assert forall k: nat | i <= k < count :: locks[k] > ptr by {
        forall k: nat | i <= k < count ensures locks[k] > ptr { assert s[i] <= s[k]; }
      }
      InsertedAscending(s, i, ptr);
      hide Ascending;
      Shift(i);
      locks[i] := ptr;
      count := count + 1;
      assert locks[..count] == s[..i] + [ptr] + s[i..];
      return true;
    }

    /** Move the locks from i on up by one place. */
    method Shift(i: nat)
      requires i <= count < locks.Length
      modifies locks
      ensures forall k: nat | k < i :: locks[k] == old(locks[k])
      ensures forall k: nat | i < k <= count :: locks[k] == old(locks[k - 1])
    {
      var j := count;
      while j > i
        invariant i <= j <= count
        invariant forall k: nat | k <= j :: locks[k] == old(locks[k])
        invariant forall k: nat | j < k <= count :: locks[k] == old(locks[k - 1])
      {
        locks[j] := locks[j - 1];
        j := j - 1;
      }
    }
  }
}
