/**
 * Log type ids and the facts about ordering and equipment grouping that
 * sort_type_ids relies on.  Everything here is a specification: the functions
 * are reference definitions, and the imperative code in module Bucketing is
 * proved to agree with them.
 */
module TypeIds {

  /** A log type id, one element of an IdVector. */
  type Id = int

  /** The reserved id of the raw modem debug message.  Its value is the one the
      synthetic debug header carries in its type field (bytes 0xeb, 0x1f read
      little-endian). */
  const ModemDebugMessage: Id := 0x1FEB

  predicate Sorted(s: seq<Id>) {
    forall i, j :: 0 <= i < j < |s| ==> s[i] <= s[j]
  }

  /** Sorted and free of duplicates. */
  predicate StrictlyIncreasing(s: seq<Id>) {
    forall i, j :: 0 <= i < j < |s| ==> s[i] < s[j]
  }

  ghost predicate SameElements(a: seq<Id>, b: seq<Id>) {
    forall x :: x in a <==> x in b
  }

  /** A value below every element of a strictly increasing sequence can go
      in front of it. */
  lemma ConsIncreasing(h: Id, t: seq<Id>)
    requires StrictlyIncreasing(t)
    requires forall y :: y in t ==> h < y
    ensures StrictlyIncreasing([h] + t)
  {
    forall i, j | 0 <= i < j < |[h] + t| ensures ([h] + t)[i] < ([h] + t)[j] {
      assert ([h] + t)[j] == t[j - 1];
      assert t[j - 1] in t;
      if i > 0 {
        assert ([h] + t)[i] == t[i - 1];
      }
    }
  }

  /** A value above every element of a strictly increasing sequence can go
      after it. */
  lemma SnocIncreasing(t: seq<Id>, x: Id)
    requires StrictlyIncreasing(t)
    requires forall k :: 0 <= k < |t| ==> t[k] < x
    ensures StrictlyIncreasing(t + [x])
  {
  }

  // ---------------------------------------------------------------------------
  // Sorted set of the values of a sequence

  /** Inserts x into a strictly increasing sequence, keeping it strictly
      increasing; an x already present leaves the sequence as it is. */
  function InsertSorted(x: Id, t: seq<Id>): (r: seq<Id>)
    requires StrictlyIncreasing(t)
    ensures StrictlyIncreasing(r)
    ensures forall y :: y in r <==> y == x || y in t
  {
    if |t| == 0 then [x]
    else if x < t[0] then
      assert forall y :: y in t ==> x < y by {
        forall y | y in t ensures x < y {
          var k :| 0 <= k < |t| && t[k] == y;
          assert t[0] <= t[k];
        }
      }
      ConsIncreasing(x, t);
      [x] + t
    else if x == t[0] then t
    else
      var rest := InsertSorted(x, t[1..]);
      assert forall y :: y in t[1..] ==> t[0] < y by {
        forall y | y in t[1..] ensures t[0] < y {
          var k :| 0 <= k < |t[1..]| && t[1..][k] == y;
          assert t[k + 1] == y;
        }
      }
      assert forall y :: y in t <==> y == t[0] || y in t[1..] by {
        assert t == [t[0]] + t[1..];
      }
      ConsIncreasing(t[0], rest);
      [t[0]] + rest
  }

  /** The values of s, each once, in increasing order: what sorting an
      IdVector and dropping its duplicates must produce. */
  function SortedSet(s: seq<Id>): (r: seq<Id>)
    ensures StrictlyIncreasing(r)
    ensures SameElements(r, s)
  {
    if |s| == 0 then []
    else
      var r := InsertSorted(s[0], SortedSet(s[1..]));
      assert forall y :: y in s <==> y == s[0] || y in s[1..];
      r
  }

  /** A strictly increasing sequence is determined by its set of values. */
  lemma {:induction false} StrictlyIncreasingUnique(a: seq<Id>, b: seq<Id>)
    requires StrictlyIncreasing(a) && StrictlyIncreasing(b)
    requires SameElements(a, b)
    ensures a == b
  {
    if |a| > 0 {
      assert a[0] in a;
      assert a[0] in b;
    }
    if |b| > 0 {
      assert b[0] in b;
      assert b[0] in a;
    }
    if |a| > 0 {
      assert a[0] == b[0] by {
        var i :| 0 <= i < |a| && a[i] == b[0];
        var j :| 0 <= j < |b| && b[j] == a[0];
        assert a[0] <= a[i];
        assert b[0] <= b[j];
      }
      forall x ensures x in a[1..] <==> x in b[1..] {
        if x in a[1..] {
          var i :| 1 <= i < |a| && a[i] == x;
          assert x in b;
          var j :| 0 <= j < |b| && b[j] == x;
          assert j != 0;
          assert b[1..][j - 1] == x;
        }
        if x in b[1..] {
          var j :| 1 <= j < |b| && b[j] == x;
          assert x in a;
          var i :| 0 <= i < |a| && a[i] == x;
          assert i != 0;
          assert a[1..][i - 1] == x;
        }
      }
      StrictlyIncreasingUnique(a[1..], b[1..]);
      assert a == [a[0]] + a[1..];
      assert b == [b[0]] + b[1..];
    }
  }

  /** The only strictly increasing sequence holding exactly the values of s is
      SortedSet(s). */
  lemma SortedSetCharacterized(s: seq<Id>, r: seq<Id>)
    requires StrictlyIncreasing(r) && SameElements(r, s)
    ensures r == SortedSet(s)
  {
    StrictlyIncreasingUnique(r, SortedSet(s));
  }

  // ---------------------------------------------------------------------------
  // std::unique

  /** What std::unique keeps after reading x, given that it has kept p. */
  function Keep(p: seq<Id>, x: Id): seq<Id> {
    if |p| > 0 && p[|p| - 1] == x then p else p + [x]
  }

  /** What std::unique keeps of s: every element that differs from the
      element kept before it, so each run of equal neighbours collapses to one. */
  function Unique(s: seq<Id>): (r: seq<Id>)
    ensures |r| <= |s|
    ensures |s| > 0 ==> |r| > 0 && r[|r| - 1] == s[|s| - 1]
  {
    if |s| == 0 then []
    else
      Keep(Unique(s[..|s| - 1]), s[|s| - 1])
  }

  /** Extending the input by one value: std::unique keeps it exactly when it
      differs from the last value kept so far. */
  lemma UniqueSnoc(s: seq<Id>, x: Id)
    ensures Unique(s + [x]) == Keep(Unique(s), x)
  {
    assert (s + [x])[..|s|] == s;
  }

  /** UniqueSnoc for a prefix of s growing by one value. */
  lemma UniquePrefixStep(s: seq<Id>, r: nat)
    requires r < |s|
    ensures Unique(s[..r + 1]) == Keep(Unique(s[..r]), s[r])
  {
    assert s[..r + 1] == s[..r] + [s[r]];
    UniqueSnoc(s[..r], s[r]);
  }

  /** std::unique leaves no two equal neighbours. */
  lemma {:induction false} UniqueNeighboursDiffer(s: seq<Id>)
    ensures forall k :: 0 < k < |Unique(s)| ==> Unique(s)[k - 1] != Unique(s)[k]
  {
    if |s| > 0 {
      var init := s[..|s| - 1];
      var x := s[|s| - 1];
      UniqueNeighboursDiffer(init);
      var p := Unique(init);
      var u := Keep(p, x);
      assert Unique(s) == u;
      if u != p {
        assert u == p + [x];
        forall k | 0 < k < |u| ensures u[k - 1] != u[k] {
          if k < |p| {
            assert u[k - 1] == p[k - 1] && u[k] == p[k];
          } else {
            assert u[k - 1] == p[|p| - 1] && u[k] == x;
          }
        }
      }
    }
  }

  /** A sequence without equal neighbours is left as it is by std::unique. */
  lemma {:induction false} UniqueOfDistinctNeighbours(s: seq<Id>)
    requires forall k :: 0 < k < |s| ==> s[k - 1] != s[k]
    ensures Unique(s) == s
  {
    if |s| > 0 {
      var init := s[..|s| - 1];
      UniqueOfDistinctNeighbours(init);
      if |init| > 0 {
        assert init[|init| - 1] == s[|s| - 2];
      }
      assert s == init + [s[|s| - 1]];
    }
  }

  /** Applying std::unique twice is the same as once. */
  lemma {:induction false} UniqueIdempotent(s: seq<Id>)
    ensures Unique(Unique(s)) == Unique(s)
  {
    var u := Unique(s);
    UniqueNeighboursDiffer(s);
    assert forall k :: 0 < k < |u| ==> u[k - 1] != u[k];
    UniqueOfDistinctNeighbours(u);
  }

  /** std::unique keeps every value of s (it drops copies only). */
  lemma {:induction false} UniqueSameElements(s: seq<Id>)
    ensures SameElements(Unique(s), s)
  {
    if |s| > 0 {
      var init := s[..|s| - 1];
      var x := s[|s| - 1];
      assert s == init + [x];
      UniqueSameElements(init);
      var p := Unique(init);
      assert Unique(s) == Keep(p, x);
      assert forall y :: y in s <==> y in init || y == x;
    }
  }

  /** On a sorted sequence std::unique leaves a strictly increasing sequence
      with the same values. */
  lemma {:induction false} UniqueOfSorted(s: seq<Id>)
    requires Sorted(s)
    ensures StrictlyIncreasing(Unique(s))
    ensures SameElements(Unique(s), s)
  {
    UniqueSameElements(s);
    if |s| > 0 {
      var init := s[..|s| - 1];
      var x := s[|s| - 1];
      assert Sorted(init);
      UniqueOfSorted(init);
      var p := Unique(init);
      if |p| > 0 && p[|p| - 1] != x {
        assert p[|p| - 1] == init[|init| - 1];
        forall k | 0 <= k < |p| ensures p[k] < x {
          assert p[k] <= p[|p| - 1];
        }
        SnocIncreasing(p, x);
      }
    }
  }

  // ---------------------------------------------------------------------------
  // Buckets: maximal runs of ids sharing an equipment id

  /** The buckets concatenated in order. */
  function Flatten(p: seq<seq<Id>>): seq<Id> {
    if |p| == 0 then [] else p[0] + Flatten(p[1..])
  }

  /** An id is in the concatenation exactly when it is in one of the buckets. */
  lemma {:induction false} FlattenMembership(p: seq<seq<Id>>, x: Id)
    ensures x in Flatten(p) <==> exists k :: 0 <= k < |p| && x in p[k]
  {
    if |p| > 0 {
      FlattenMembership(p[1..], x);
      assert forall k :: 1 <= k < |p| ==> p[k] == p[1..][k - 1];
      if x in Flatten(p[1..]) {
        var k :| 0 <= k < |p[1..]| && x in p[1..][k];
        assert x in p[k + 1];
      }
    }
  }

  lemma {:induction false} FlattenAppend(p: seq<seq<Id>>, b: seq<Id>)
    ensures Flatten(p + [b]) == Flatten(p) + b
  {
    if |p| == 0 {
      assert p + [b] == [b];
    } else {
      assert (p + [b])[1..] == p[1..] + [b];
      FlattenAppend(p[1..], b);
    }
  }

  /** Bucket t sits in the concatenation right after buckets 0 .. t - 1. */
  lemma {:induction false} BucketIsSlice(p: seq<seq<Id>>, t: nat)
    requires t < |p|
    ensures var lo := |Flatten(p[..t])|;
      lo + |p[t]| <= |Flatten(p)| && Flatten(p)[lo..lo + |p[t]|] == p[t]
  {
    if t == 0 {
      assert p[..0] == [];
      assert Flatten(p) == p[0] + Flatten(p[1..]);
    } else {
      BucketIsSlice(p[1..], t - 1);
      assert p[1..][..t - 1] == p[..t][1..];
      assert Flatten(p[..t]) == p[0] + Flatten(p[..t][1..]);
      assert Flatten(p) == p[0] + Flatten(p[1..]);
    }
  }

  /** Cutting a strictly increasing sequence leaves strictly increasing pieces. */
  lemma BucketsIncreasing(p: seq<seq<Id>>)
    requires StrictlyIncreasing(Flatten(p))
    ensures forall t :: 0 <= t < |p| ==> StrictlyIncreasing(p[t])
  {
    forall t | 0 <= t < |p| ensures StrictlyIncreasing(p[t]) {
      BucketIsSlice(p, t);
      var lo := |Flatten(p[..t])|;
      SliceIncreasing(Flatten(p), lo, lo + |p[t]|);
    }
  }

  lemma SliceIncreasing(s: seq<Id>, i: nat, j: nat)
    requires StrictlyIncreasing(s) && i <= j <= |s|
    ensures StrictlyIncreasing(s[i..j])
  {
    forall m, l | 0 <= m < l < j - i ensures s[i..j][m] < s[i..j][l] {
      assert s[i..j][m] == s[i + m] && s[i..j][l] == s[i + l];
    }
  }

  /** All ids of b have the equipment id of its first one. */
  predicate Uniform(b: seq<Id>, equip: Id -> int) {
    forall k :: 0 <= k < |b| ==> equip(b[k]) == equip(b[0])
  }

  /** p splits s into non-empty buckets, each of one equipment id, with the
      equipment id changing at every boundary between neighbouring buckets:
      the maximal equipment runs of s. */
  predicate MaximalRuns(p: seq<seq<Id>>, s: seq<Id>, equip: Id -> int) {
    && Flatten(p) == s
    && (forall k :: 0 <= k < |p| ==> |p[k]| > 0 && Uniform(p[k], equip))
    && (forall k :: 0 < k < |p| ==> equip(p[k - 1][|p[k - 1]| - 1]) != equip(p[k][0]))
  }

  /** Length of the first equipment run of s. */
  function RunLength(s: seq<Id>, equip: Id -> int): (k: nat)
    requires |s| > 0
    ensures 1 <= k <= |s|
    ensures forall t :: 0 <= t < k ==> equip(s[t]) == equip(s[0])
    ensures k < |s| ==> equip(s[k]) != equip(s[0])
  {
    if |s| == 1 || equip(s[1]) != equip(s[0]) then 1
    else 1 + RunLength(s[1..], equip)
  }

  /** Reference definition of the buckets: cut s after each maximal run. */
  function Runs(s: seq<Id>, equip: Id -> int): seq<seq<Id>>
    decreases |s|
  {
    if |s| == 0 then []
    else
      var k := RunLength(s, equip);
      [s[..k]] + Runs(s[k..], equip)
  }

  /** Putting a uniform bucket in front of a maximal-run split whose first
      bucket has another equipment id gives a maximal-run split. */
  lemma MaximalRunsCons(b: seq<Id>, tail: seq<seq<Id>>, rest: seq<Id>, equip: Id -> int)
    requires |b| > 0 && Uniform(b, equip)
    requires MaximalRuns(tail, rest, equip)
    requires |tail| > 0 ==> equip(b[|b| - 1]) != equip(tail[0][0])
    ensures MaximalRuns([b] + tail, b + rest, equip)
  {
    var p := [b] + tail;
    assert p[1..] == tail;
    forall k | 0 <= k < |p| ensures |p[k]| > 0 && Uniform(p[k], equip) {
      if k > 0 {
        assert p[k] == tail[k - 1];
      }
    }
    forall k | 0 < k < |p|
      ensures equip(p[k - 1][|p[k - 1]| - 1]) != equip(p[k][0])
    {
      if k > 1 {
        assert p[k - 1] == tail[k - 2] && p[k] == tail[k - 1];
      }
    }
  }

  /** Runs really is a split of s into maximal equipment runs. */
  lemma {:induction false} RunsAreMaximal(s: seq<Id>, equip: Id -> int)
    ensures MaximalRuns(Runs(s, equip), s, equip)
    decreases |s|
  {
    if |s| > 0 {
      var k := RunLength(s, equip);
      var tail := Runs(s[k..], equip);
      RunsAreMaximal(s[k..], equip);
      if |tail| > 0 {
        var k2 := RunLength(s[k..], equip);
        assert tail[0] == s[k..][..k2];
        assert tail[0][0] == s[k];
      }
      assert s[..k] + s[k..] == s;
      MaximalRunsCons(s[..k], tail, s[k..], equip);
    }
  }

  /** The first bucket of a maximal split is the first equipment run. */
  lemma FirstBucketIsFirstRun(p: seq<seq<Id>>, s: seq<Id>, equip: Id -> int)
    requires MaximalRuns(p, s, equip) && |p| > 0
    ensures |s| > 0 && RunLength(s, equip) == |p[0]|
    ensures s[..|p[0]|] == p[0] && s[|p[0]|..] == Flatten(p[1..])
  {
    var b := p[0];
    assert Flatten(p) == b + Flatten(p[1..]);
    assert s[..|b|] == b;
    var k := RunLength(s, equip);
    assert forall t :: 0 <= t < |b| ==> equip(s[t]) == equip(s[0]);
    if |b| < |s| {
      assert Flatten(p[1..]) == p[1] + Flatten(p[2..]);
      assert s[|b|] == p[1][0];
    }
  }

  /** Dropping the first bucket of a maximal split leaves a maximal split. */
  lemma MaximalRunsTail(p: seq<seq<Id>>, s: seq<Id>, equip: Id -> int)
    requires MaximalRuns(p, s, equip) && |p| > 0
    requires |p[0]| <= |s| && s[|p[0]|..] == Flatten(p[1..])
    ensures MaximalRuns(p[1..], s[|p[0]|..], equip)
  {
    var rest := p[1..];
    forall i | 0 < i < |rest|
      ensures equip(rest[i - 1][|rest[i - 1]| - 1]) != equip(rest[i][0])
    {
      assert rest[i - 1] == p[i] && rest[i] == p[i + 1];
    }
  }

  /** The maximal equipment runs of a sequence are unique: any split with the
      three properties of MaximalRuns is Runs(s). */
  lemma {:induction false} MaximalRunsUnique(p: seq<seq<Id>>, s: seq<Id>, equip: Id -> int)
    requires MaximalRuns(p, s, equip)
    ensures p == Runs(s, equip)
    decreases |s|
  {
    if |p| == 0 {
      assert s == [];
    } else {
      FirstBucketIsFirstRun(p, s, equip);
      var k := |p[0]|;
      MaximalRunsTail(p, s, equip);
      MaximalRunsUnique(p[1..], s[k..], equip);
      assert p == [p[0]] + p[1..];
    }
  }
}
