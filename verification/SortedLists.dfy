/** Strictly sorted id lists: lookup, sorting with deduplication, insertion and removal. */
module SortedLists {
  import opened Walks

  /** The ids below `n` that are in `s`, in ascending order: what sorting and deduplicating yields. */
  function Ascending(n: nat, s: set<nat>): seq<nat> {
    if n == 0 then [] else Ascending(n - 1, s) + if n - 1 in s then [n - 1] else []
  }

  lemma {:induction false} AscendingIsSorted(n: nat, s: set<nat>)
    ensures Sorted(Ascending(n, s))
    ensures forall x :: x in Ascending(n, s) <==> x in s && x < n
  {
    if n > 0 {
      AscendingIsSorted(n - 1, s);
      var rest := Ascending(n - 1, s);
      forall i, j | 0 <= i < j < |Ascending(n, s)| ensures Ascending(n, s)[i] < Ascending(n, s)[j] {
        assert rest[i] in rest;
      }
    }
  }

  lemma SameElements(a: seq<nat>, b: seq<nat>, x: nat)
    requires x !in a && x !in b
    requires forall z :: z in a + [x] <==> z in b + [x]
    ensures forall z :: z in a <==> z in b
  {
    assert forall z :: z in a ==> z in a + [x] && z in b + [x];
    assert forall z :: z in b ==> z in b + [x] && z in a + [x];
  }

  /** A strictly sorted list is determined by its elements. */
  lemma {:induction false} SortedUnique(a: seq<nat>, b: seq<nat>)
    requires Sorted(a) && Sorted(b)
    requires forall x :: x in a <==> x in b
    ensures a == b
  {
    if a != [] {
      assert a[|a| - 1] in a;
    }
    if b != [] {
      assert b[|b| - 1] in b;
    }
    if a != [] && b != [] {
      var x, restA, restB := a[|a| - 1], a[..|a| - 1], b[..|b| - 1];
      assert b[|b| - 1] == x;
      assert a == restA + [x] && b == restB + [x];
      SameElements(restA, restB, x);
      SortedUnique(restA, restB);
    }
  }

  /** Binary search: the position of `x`, or the position that keeps the list sorted. */
  method BinarySearch(s: seq<nat>, x: nat) returns (found: bool, pos: nat)
    requires Sorted(s)
    ensures found <==> x in s
    ensures found ==> pos < |s| && s[pos] == x
    ensures !found ==> pos <= |s| && (forall i | 0 <= i < pos :: s[i] < x) && forall i | pos <= i < |s| :: x < s[i]
  {
    var lo, hi := 0, |s|;
    while lo < hi
      invariant 0 <= lo <= hi <= |s|
      invariant forall i | 0 <= i < lo :: s[i] < x
      invariant forall i | hi <= i < |s| :: x < s[i]
    {
      var mid := (lo + hi) / 2;
      if s[mid] < x {
        lo := mid + 1;
      } else if x < s[mid] {
        hi := mid;
      } else {
        return true, mid;
      }
    }
    return false, lo;
  }

  /** Inserting at the position binary search reports. */
  lemma InsertKeepsSorted(s: seq<nat>, x: nat, pos: nat)
    requires Sorted(s) && pos <= |s|
    requires (forall i | 0 <= i < pos :: s[i] < x) && forall i | pos <= i < |s| :: x < s[i]
    ensures Sorted(s[..pos] + [x] + s[pos..])
    ensures forall y :: y in s[..pos] + [x] + s[pos..] <==> y in s || y == x
  {
    assert s == s[..pos] + s[pos..];
  }

  lemma RemoveKeepsSorted(s: seq<nat>, pos: nat)
    requires Sorted(s) && pos < |s|
    ensures Sorted(s[..pos] + s[pos + 1..])
    ensures forall y :: y in s[..pos] + s[pos + 1..] <==> y in s && y != s[pos]
  {
    assert s == s[..pos] + [s[pos]] + s[pos + 1..];
  }

  /** The two-pointer merge of two sorted lists: what to remove and what to add. */
  method SortedDiff(old': seq<nat>, new': seq<nat>) returns (toRemove: seq<nat>, toAdd: seq<nat>)
    requires Sorted(old') && Sorted(new')
    ensures forall x :: x in toRemove <==> x in old' && x !in new'
    ensures forall x :: x in toAdd <==> x in new' && x !in old'
  {
    toRemove, toAdd := [], [];
    var o, n := 0, 0;
    while o < |old'| && n < |new'|
      invariant 0 <= o <= |old'| && 0 <= n <= |new'|
      invariant forall i, j | 0 <= i < o && n <= j < |new'| :: old'[i] < new'[j]
      invariant forall i, j | o <= i < |old'| && 0 <= j < n :: new'[j] < old'[i]
      invariant forall x :: x in toRemove <==> x in old'[..o] && x !in new'
      invariant forall x :: x in toAdd <==> x in new'[..n] && x !in old'
      decreases |old'| - o + |new'| - n
    {
      assert old'[..o + 1] == old'[..o] + [old'[o]];
      assert new'[..n + 1] == new'[..n] + [new'[n]];
      if old'[o] < new'[n] {
        toRemove := toRemove + [old'[o]];
        o := o + 1;
      } else if old'[o] > new'[n] {
        toAdd := toAdd + [new'[n]];
        n := n + 1;
      } else {
        o, n := o + 1, n + 1;
      }
    }
    assert old' == old'[..o] + old'[o..] && new' == new'[..n] + new'[n..];
    toRemove, toAdd := toRemove + old'[o..], toAdd + new'[n..];
  }
}
