/**
 * sort_type_ids (dm_collector_c/dm_collector_c.cpp): sort the requested type
 * ids in place, drop duplicates with std::unique and resize, then cut the
 * result into maximal runs that share an equipment id.
 */
module Bucketing {
  import opened TypeIds

  /** Swaps two neighbouring cells. */
  method SwapDown(a: array<Id>, j: nat)
    requires 0 < j < a.Length
    modifies a
    ensures a[j - 1] == old(a[j]) && a[j] == old(a[j - 1])
    ensures forall m :: 0 <= m < a.Length && m != j - 1 && m != j ==> a[m] == old(a[m])
    ensures multiset(a[..]) == multiset(old(a[..]))
  {
    a[j - 1], a[j] := a[j], a[j - 1];
  }

  /** std::sort on the IdVector: afterwards the cells are in non-decreasing
      order and hold the same ids as before, counted with multiplicity. */
  method SortInPlace(a: array<Id>)
    modifies a
    ensures Sorted(a[..])
    ensures multiset(a[..]) == multiset(old(a[..]))
  {
    var i := 0;
    while i < a.Length
      invariant 0 <= i <= a.Length
      invariant forall k, l :: 0 <= k < l < i ==> a[k] <= a[l]
      invariant multiset(a[..]) == multiset(old(a[..]))
    {
      // Move a[i] down to its place among the sorted a[..i].
      var j := i;
      while 0 < j && a[j] < a[j - 1]
        invariant 0 <= j <= i
        invariant forall k, l :: 0 <= k < l <= i && k != j && l != j ==> a[k] <= a[l]
        invariant forall l :: j < l <= i ==> a[j] <= a[l]
        invariant multiset(a[..]) == multiset(old(a[..]))
      {
        SwapDown(a, j);
        j := j - 1;
      }
      i := i + 1;
    }
  }

  /** std::unique followed by resize: compacts the array so that its first n
      cells hold Unique(old contents); the cells from n on are dropped. */
  method UniqueInPlace(a: array<Id>) returns (n: nat)
    modifies a
    ensures n <= a.Length
    ensures a[..n] == Unique(old(a[..]))
  {
    if a.Length == 0 {
      return 0;
    }
    ghost var input := a[..];
    n := 1;
    var r := 1;
    CompactStart(input);
    while r < a.Length
      invariant Compacted(a[..], input, n, r)
    {
      var x := a[r];
      CompactStep(a[..], input, n, r);
      if x != a[n - 1] {
        a[n] := x;
        n := n + 1;
      }
      r := r + 1;
    }
    assert input[..r] == input;
  }

  /** The state of the std::unique loop: the first n cells hold what it has
      kept of the first r input values, and cells from r on are untouched. */
  ghost predicate Compacted(cur: seq<Id>, input: seq<Id>, n: nat, r: nat) {
    && |cur| == |input|
    && 1 <= n <= r <= |input|
    && cur[..n] == Unique(input[..r])
    && cur[r..] == input[r..]
  }

  lemma CompactStart(input: seq<Id>)
    requires |input| > 0
    ensures Compacted(input, input, 1, 1)
  {
    UniquePrefixStep(input, 0);
  }

  /** One turn of the std::unique loop: the next value is written after the
      last kept one exactly when it differs from it. */
  lemma CompactStep(cur: seq<Id>, input: seq<Id>, n: nat, r: nat)
    requires Compacted(cur, input, n, r) && r < |input|
    ensures cur[r] != cur[n - 1] ==> Compacted(cur[n := cur[r]], input, n + 1, r + 1)
    ensures cur[r] == cur[n - 1] ==> Compacted(cur, input, n, r + 1)
  {
    var x := cur[r];
    assert x == input[r] by {
      assert cur[r..][0] == input[r..][0];
    }
    UniquePrefixStep(input, r);
    var kept := cur[..n];
    assert cur[n - 1] == kept[n - 1];
    if x != cur[n - 1] {
      var next := cur[n := x];
      assert next[..n + 1] == kept + [x];
      assert next[r + 1..] == cur[r + 1..];
      assert cur[r + 1..] == cur[r..][1..];
      assert input[r + 1..] == input[r..][1..];
    } else {
      assert cur[r + 1..] == cur[r..][1..];
      assert input[r + 1..] == input[r..][1..];
    }
  }

  /** The bucketing loop of sort_type_ids over the first n cells: a new bucket
      starts at j exactly when get_equip_id changes between a[j - 1] and a[j]. */
  method SplitRuns(a: array<Id>, n: nat, equip: Id -> int) returns (out: seq<seq<Id>>)
    requires n <= a.Length
    ensures MaximalRuns(out, a[..n], equip)
  {
    out := [];
    var lastEquip := -1;
    var i, j := 0, 0;
    while j < n
      invariant 0 <= i <= j <= n
      invariant i < j || j == 0
      invariant MaximalRuns(out, a[..i], equip)
      invariant forall k :: i <= k < j ==> equip(a[k]) == equip(a[i])
      invariant 0 < j ==> lastEquip == equip(a[j - 1])
      invariant 0 < i ==> |out| > 0 && out[|out| - 1][|out[|out| - 1]| - 1] == a[i - 1]
      invariant 0 < i ==> equip(a[i - 1]) != equip(a[i])
    {
      if j != 0 && lastEquip != equip(a[j]) {
        CloseBucket(a, out, i, j, equip);
        out := out + [a[i..j]];
        i := j;
      }
      lastEquip := equip(a[j]);
      j := j + 1;
    }
    if i != j {
      CloseBucket(a, out, i, j, equip);
      out := out + [a[i..j]];
    }
    assert a[..j] == a[..n];
  }

  /** Pushing the run a[i..j] keeps out a split of the prefix into maximal runs. */
  lemma CloseBucket(a: array<Id>, out: seq<seq<Id>>, i: nat, j: nat, equip: Id -> int)
    requires i < j <= a.Length
    requires MaximalRuns(out, a[..i], equip)
    requires forall k :: i <= k < j ==> equip(a[k]) == equip(a[i])
    requires 0 < i ==> |out| > 0 && out[|out| - 1][|out[|out| - 1]| - 1] == a[i - 1]
    requires 0 < i ==> equip(a[i - 1]) != equip(a[i])
    ensures MaximalRuns(out + [a[i..j]], a[..j], equip)
  {
    FlattenAppend(out, a[i..j]);
    assert a[..i] + a[i..j] == a[..j];
  }

  /** sort_type_ids: afterwards the first n cells of the array (the resized
      IdVector) are the requested ids sorted and without duplicates, and out
      holds its maximal equipment runs in order. */
  method SortTypeIds(a: array<Id>, equip: Id -> int) returns (n: nat, out: seq<seq<Id>>)
    modifies a
    ensures n <= a.Length
    ensures StrictlyIncreasing(a[..n]) && SameElements(a[..n], old(a[..]))
    ensures a[..n] == SortedSet(old(a[..]))
    ensures MaximalRuns(out, a[..n], equip)
    ensures out == Runs(SortedSet(old(a[..])), equip)
  {
    ghost var original := a[..];
    SortInPlace(a);
    ghost var sorted := a[..];
    assert forall x :: x in sorted <==> x in original by {
      forall x ensures x in sorted <==> x in original {
        assert x in sorted <==> x in multiset(sorted);
        assert x in original <==> x in multiset(original);
      }
    }
    n := UniqueInPlace(a);
    UniqueOfSorted(sorted);
    SortedSetCharacterized(original, a[..n]);
    out := SplitRuns(a, n, equip);
    MaximalRunsUnique(out, a[..n], equip);
  }
}
