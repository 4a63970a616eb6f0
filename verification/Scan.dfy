/** Reading a stream position by position, where an item found at a position is passed over whole. */
module Scan {
  /** The positions, from `i` up to `end`, at which an item is taken; `length(k)` is 0 where there is none. */
  function Starts(length: nat -> nat, i: nat, end: nat): seq<nat>
    decreases if i < end then end - i else 0
  {
    if i >= end then []
    else if length(i) > 0 then [i] + Starts(length, i + length(i), end)
    else Starts(length, i + 1, end)
  }

  /** Where a reading from `i` stops, of a stream that ends at `j`: at the first position it comes to that waits. */
  function HeldFrom(length: nat -> nat, waits: nat -> bool, i: nat, j: nat): nat
    decreases if i < j then j - i else 0
  {
    if i >= j || waits(i) then i
    else HeldFrom(length, waits, if length(i) > 0 then i + length(i) else i + 1, j)
  }

  /** An item waits exactly while its end has not been read. */
  ghost predicate WaitsForItems(length: nat -> nat, waits: nat -> bool, j: nat) {
    forall k: nat | k < j && length(k) > 0 :: waits(k) <==> j < k + length(k)
  }

  /** Position `k` lies inside an item taken at an earlier one. */
  ghost predicate Covered(length: nat -> nat, s: seq<nat>, k: nat) {
    exists t :: t in s && t < k < t + length(t)
  }

  /** Items are taken in order, and none where another has been taken. */
  lemma {:induction false} StartsInOrder(length: nat -> nat, i: nat, end: nat)
    ensures var s := Starts(length, i, end);
            && (forall k | k in s :: i <= k < end && length(k) > 0)
            && (forall a, b | 0 <= a < b < |s| :: s[a] + length(s[a]) <= s[b])
    decreases if i < end then end - i else 0
  {
    if i < end {
      var next := if length(i) > 0 then i + length(i) else i + 1;
      StartsInOrder(length, next, end);
      var s, rest := Starts(length, i, end), Starts(length, next, end);
      if length(i) > 0 {
        assert s == [i] + rest;
        assert forall b | 0 < b < |s| :: s[b] == rest[b - 1] && rest[b - 1] in rest;
      }
    }
  }

  lemma {:induction false} StartsSkip(length: nat -> nat, i: nat, j: nat, end: nat)
    requires i <= j <= end && forall k | i <= k < j :: length(k) == 0
    ensures Starts(length, i, end) == Starts(length, j, end)
    decreases j - i
  {
    if i < j { StartsSkip(length, i + 1, j, end); }
  }

  lemma {:induction false} HeldSkips(length: nat -> nat, waits: nat -> bool, i: nat, k: nat, j: nat)
    requires i <= k <= j && forall n | i <= n < k :: length(n) == 0 && !waits(n)
    ensures HeldFrom(length, waits, i, j) == HeldFrom(length, waits, k, j)
    decreases k - i
  {
    if i < k { HeldSkips(length, waits, i + 1, k, j); }
  }

  /** An item is taken if and only if no item taken before it covers its first byte. */
  lemma {:induction false} TakenUnlessCovered(length: nat -> nat, from: nat, end: nat, i: nat)
    requires from <= i < end && length(i) > 0
    ensures var s := Starts(length, from, end);
            i in s <==> !Covered(length, s, i)
    decreases i - from
  {
    StartsInOrder(length, from, end);
    var s := Starts(length, from, end);
    if i in s {
      var b :| 0 <= b < |s| && s[b] == i;
    } else {
      SomeCovers(length, from, end, i);
    }
  }

  lemma {:induction false} SomeCovers(length: nat -> nat, from: nat, end: nat, i: nat)
    requires from <= i < end && length(i) > 0 && i !in Starts(length, from, end)
    ensures Covered(length, Starts(length, from, end), i)
    decreases i - from
  {
    var s := Starts(length, from, end);
    if length(from) > 0 {
      assert s[0] == from;
      var next := from + length(from);
      if next <= i {
        SomeCovers(length, next, end, i);
        CoveredLater(length, from, Starts(length, next, end), i);
      } else {
        assert from in s;
      }
    } else {
      SomeCovers(length, from + 1, end, i);
    }
  }

  lemma {:induction false} CoveredLater(length: nat -> nat, first: nat, rest: seq<nat>, k: nat)
    requires Covered(length, rest, k)
    ensures Covered(length, [first] + rest, k)
  {
    var t :| t in rest && t < k < t + length(t);
    assert t in [first] + rest;
  }

  /** The reading stops at the end or where it waits; every position that waits before is covered by an item taken. */
  lemma {:induction false} HeldIsFirstWaiting(length: nat -> nat, waits: nat -> bool, i: nat, j: nat)
    requires i <= j && WaitsForItems(length, waits, j)
    ensures var h := HeldFrom(length, waits, i, j);
            var s := Starts(length, i, h);
            && i <= h <= j && (h < j ==> waits(h))
            && (forall t | t in s :: t + length(t) <= h)
            && (forall k | i <= k < h && waits(k) :: Covered(length, s, k))
    decreases j - i
  {
    if i < j && !waits(i) {
      var next := if length(i) > 0 then i + length(i) else i + 1;
      HeldIsFirstWaiting(length, waits, next, j);
      var h := HeldFrom(length, waits, next, j);
      var s, rest := Starts(length, i, h), Starts(length, next, h);
      if length(i) > 0 {
        assert s == [i] + rest;
        forall k | i <= k < h && waits(k)
          ensures Covered(length, s, k)
        {
          if k < next {
            assert s[0] == i && i in s && i < k < i + length(i);
          } else {
            CoveredLater(length, i, rest, k);
          }
        }
      }
    }
  }

  /**
    * Of a stream that ends at `j`, a complete item is taken if and only if no item taken covers its
    * first byte and every position before it that waits is covered by an item taken.
    */
  lemma {:induction false} TakenExactly(length: nat -> nat, waits: nat -> bool, j: nat, i: nat)
    requires WaitsForItems(length, waits, j) && length(i) > 0 && i + length(i) <= j
    ensures var s := Starts(length, 0, HeldFrom(length, waits, 0, j));
            i in s <==> !Covered(length, s, i) && forall k: nat | k < i && waits(k) :: Covered(length, s, k)
  {
    var h := HeldFrom(length, waits, 0, j);
    var s := Starts(length, 0, h);
    HeldIsFirstWaiting(length, waits, 0, j);
    StartsInOrder(length, 0, h);
    assert !waits(i);
    if i < h {
      TakenUnlessCovered(length, 0, h, i);
    } else {
      assert h < i && waits(h) && !Covered(length, s, h);
    }
  }
}
