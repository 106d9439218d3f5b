/**
 Lossy compaction of one series (`consolidate_similar`). A forward scan over
 the interior samples compares each one with a reference sample (`prev`, at
 first the front of the series) and marks it redundant when it has the same
 capacity and its free space lies within the tolerance of the reference. The
 marked samples are then deleted from the back to the front.

 The specification names the reference index at each step (`RefIndex`), the
 set of marked indices (`Marked`) and the result (`Consolidated`). The method
 `ConsolidateSimilar` is proved to compute exactly that result.
 */
module Consolidation {
  import opened Measurement

  function Max(a: int, b: int): int
  {
    if a >= b then a else b
  }

  /** The tolerance: 0.01% of the capacity, but at least 1 KiB. */
  function MinDiff(bytesTotal: u64): nat
  {
    Max(1024, bytesTotal / 10000)
  }

  /** The distance between two free-space readings, computed without u64 underflow. */
  function AbsDiff(a: u64, b: u64): nat
  {
    if a > b then a - b else b - a
  }

  /** `cur` is a near-duplicate of the reference `prev`. */
  predicate Similar(prev: DiskMeasurement, cur: DiskMeasurement)
  {
    prev.bytesTotal == cur.bytesTotal && AbsDiff(prev.bytesFree, cur.bytesFree) <= MinDiff(prev.bytesTotal)
  }

  /**
   The index of the reference in force when the scan examines `v[i]`. The
   reference moves to an examined sample only when that sample has the same
   capacity as the reference and is not similar to it; a sample with another
   capacity leaves the reference where it is.
   */
  function RefIndex(v: Series, i: nat): (r: nat)
    requires 1 <= i < |v|
    ensures r < i
    decreases i
  {
    if i == 1 then 0
    else
      var p := RefIndex(v, i - 1);
      if v[p].bytesTotal == v[i - 1].bytesTotal && !Similar(v[p], v[i - 1]) then i - 1 else p
  }

  /** The scan marks interior sample `i` as redundant: it is similar to the reference in force. */
  predicate Redundant(v: Series, i: nat)
  {
    1 <= i < |v| - 1 && Similar(v[RefIndex(v, i)], v[i])
  }

  /** The interior indices the scan marks as redundant. */
  function Marked(v: Series): set<nat>
  {
    set i: nat | i < |v| && Redundant(v, i)
  }

  /** `v` without the elements at the positions in `s`, from position `i` on. */
  function WithoutFrom<T>(v: seq<T>, s: set<nat>, i: nat): seq<T>
    decreases |v| - i
  {
    if i >= |v| then []
    else (if i in s then [] else [v[i]]) + WithoutFrom(v, s, i + 1)
  }

  function Without<T>(v: seq<T>, s: set<nat>): seq<T>
  {
    WithoutFrom(v, s, 0)
  }

  /** The series after one call of `consolidate_similar`. */
  function Consolidated(v: Series): Series
  {
    Without(v, Marked(v))
  }

  // ---------------------------------------------------------------------------
  // Deleting a set of positions

  lemma {:induction false} WithoutFromSplit<T>(v: seq<T>, s: set<nat>, i: nat, j: nat)
    requires i <= j <= |v|
    requires forall k: nat :: i <= k < j ==> k !in s
    ensures WithoutFrom(v, s, i) == v[i..j] + WithoutFrom(v, s, j)
    decreases j - i
  {
    if i < j {
      assert i !in s;
      WithoutFromSplit(v, s, i + 1, j);
      calc {
        WithoutFrom(v, s, i);
        [v[i]] + WithoutFrom(v, s, i + 1);
        [v[i]] + (v[i + 1..j] + WithoutFrom(v, s, j));
        ([v[i]] + v[i + 1..j]) + WithoutFrom(v, s, j);
        { assert [v[i]] + v[i + 1..j] == v[i..j]; }
        v[i..j] + WithoutFrom(v, s, j);
      }
    } else {
      assert v[i..j] == [];
    }
  }

  /** Deleting no position in range leaves the sequence as it is. */
  lemma WithoutNothing<T>(v: seq<T>, s: set<nat>)
    requires forall k: nat :: k < |v| ==> k !in s
    ensures Without(v, s) == v
  {
    WithoutFromSplit(v, s, 0, |v|);
    assert v[0..|v|] == v;
  }

  predicate Increasing(s: seq<nat>)
  {
    forall a, b :: 0 <= a < b < |s| ==> s[a] < s[b]
  }

  /** The set of the elements of an index list. */
  function Elems(s: seq<nat>): set<nat>
  {
    set k | k in s
  }

  lemma {:induction false} WithoutFromAgree<T>(v: seq<T>, s: set<nat>, t: set<nat>, i: nat)
    requires forall k: nat :: i <= k < |v| ==> (k in s <==> k in t)
    ensures WithoutFrom(v, s, i) == WithoutFrom(v, t, i)
    decreases |v| - i
  {
    if i < |v| {
      WithoutFromAgree(v, s, t, i + 1);
    }
  }

  lemma {:induction false} WithoutFromShorter<T>(v: seq<T>, s: set<nat>, i: nat, k: nat)
    requires i <= k < |v| && k in s
    ensures |WithoutFrom(v, s, i)| < |v| - i
    decreases |v| - i
  {
    if i < k {
      WithoutFromShorter(v, s, i + 1, k);
    } else {
      WithoutFromSplit(v, s, i + 1, i + 1);
      WithoutFromLength(v, s, i + 1);
    }
  }

  lemma {:induction false} WithoutFromLength<T>(v: seq<T>, s: set<nat>, i: nat)
    ensures |WithoutFrom(v, s, i)| <= |v| - i || (i > |v| && WithoutFrom(v, s, i) == [])
    decreases |v| - i
  {
    if i < |v| {
      WithoutFromLength(v, s, i + 1);
    }
  }

  lemma {:induction false} WithoutFromSubseq<T>(v: seq<T>, s: set<nat>, i: nat)
    requires i <= |v|
    ensures SubseqOf(WithoutFrom(v, s, i), v[i..])
    decreases |v| - i
  {
    if i < |v| {
      WithoutFromSubseq(v, s, i + 1);
      var rest := WithoutFrom(v, s, i + 1);
      assert v[i..][1..] == v[i + 1..];
      if i in s {
        assert WithoutFrom(v, s, i) == rest;
      } else {
        var w := WithoutFrom(v, s, i);
        assert w == [v[i]] + rest;
        assert w[0] == v[i..][0] && w[1..] == rest;
      }
    }
  }

  lemma {:induction false} WithoutFromKeepsLast<T>(v: seq<T>, s: set<nat>, i: nat)
    requires i < |v| && |v| - 1 !in s
    ensures var w := WithoutFrom(v, s, i); w != [] && w[|w| - 1] == v[|v| - 1]
    decreases |v| - i
  {
    if i + 1 < |v| {
      WithoutFromKeepsLast(v, s, i + 1);
    }
  }

  /** Positions below the smallest deleted one are untouched. */
  lemma WithoutPrefix<T>(v: seq<T>, s: set<nat>, t: nat)
    requires t <= |v|
    requires forall k :: k in s ==> t <= k
    ensures Without(v, s) == v[..t] + WithoutFrom(v, s, t)
  {
    WithoutFromSplit(v, s, 0, t);
  }

  /** From position `t` on, deleting `t` as well drops exactly `v[t]`. */
  lemma WithoutFromAt<T>(v: seq<T>, s: set<nat>, t: nat)
    requires t < |v| && t !in s
    ensures WithoutFrom(v, s, t) == [v[t]] + WithoutFrom(v, s, t + 1)
    ensures WithoutFrom(v, s + {t}, t) == WithoutFrom(v, s, t + 1)
  {
    WithoutFromAgree(v, s, s + {t}, t + 1);
  }

  /** Deleting position `t` from `Without(v, s)`, where every position in `s` lies above `t`. */
  lemma RemoveBelow<T>(v: seq<T>, s: set<nat>, t: nat)
    requires t < |v| && t !in s
    requires forall k :: k in s ==> t < k
    ensures var w := Without(v, s);
      t < |w| && w[..t] + w[t + 1..] == Without(v, s + {t})
  {
    var rest := WithoutFrom(v, s, t + 1);
    WithoutPrefix(v, s, t);
    WithoutPrefix(v, s + {t}, t);
    WithoutFromAt(v, s, t);
    var w := Without(v, s);
    assert w == v[..t] + ([v[t]] + rest);
    assert w[..t] == v[..t];
    assert w[t + 1..] == rest;
  }

  // ---------------------------------------------------------------------------
  // Properties of the scan

  /**
   The reference is always a retained sample with the capacity of the first
   sample: samples of another capacity never become the reference.
   */
  lemma {:induction false} RefIndexKept(v: Series, i: nat)
    requires 1 <= i < |v|
    ensures RefIndex(v, i) !in Marked(v)
    ensures v[RefIndex(v, i)].bytesTotal == v[0].bytesTotal
    decreases i
  {
    if i > 1 {
      RefIndexKept(v, i - 1);
    }
  }

  /**
   A sample is deleted only as a near-duplicate of an earlier retained sample:
   same capacity, and free space within `MinDiff` of it.
   */
  lemma RemovedOnlyNearKept(v: Series, i: nat)
    requires i in Marked(v)
    ensures 1 <= i < |v| - 1
    ensures exists j :: 0 <= j < i && j !in Marked(v) && Similar(v[j], v[i])
  {
    RefIndexKept(v, i);
    var j := RefIndex(v, i);
    assert j < i && j !in Marked(v) && Similar(v[j], v[i]);
  }

  /**
   The removal rule stated against the first sample's capacity: an interior
   sample is deleted exactly when it has the capacity of the first sample and
   its free space is within `MinDiff` of the current reference.
   */
  lemma RemovalRule(v: Series, i: nat)
    requires 1 <= i < |v| - 1
    ensures i in Marked(v) <==>
      v[i].bytesTotal == v[0].bytesTotal
      && AbsDiff(v[RefIndex(v, i)].bytesFree, v[i].bytesFree) <= MinDiff(v[0].bytesTotal)
  {
    RefIndexKept(v, i);
  }

  /** A retained interior sample with the first sample's capacity becomes the next reference. */
  lemma KeptSameCapacityBecomesReference(v: Series, i: nat)
    requires 1 <= i < |v| - 1 && i !in Marked(v)
    requires v[i].bytesTotal == v[0].bytesTotal
    ensures RefIndex(v, i + 1) == i
  {
    RefIndexKept(v, i);
  }

  /**
   After a change of capacity, samples with the new capacity are all retained
   and none of them becomes the reference.
   */
  lemma ResizedSampleKept(v: Series, i: nat)
    requires 1 <= i < |v| && v[i].bytesTotal != v[0].bytesTotal
    ensures i !in Marked(v)
    ensures forall j :: i < j < |v| ==> RefIndex(v, j) != i
  {
    forall j | i < j < |v|
      ensures RefIndex(v, j) != i
    {
      RefIndexKept(v, j);
    }
    if i < |v| - 1 {
      RefIndexKept(v, i);
    }
  }

  /** When no interior sample shares the first sample's capacity, nothing is deleted. */
  lemma ResizeStopsConsolidation(v: Series)
    requires forall j :: 1 <= j < |v| - 1 ==> v[j].bytesTotal != v[0].bytesTotal
    ensures Marked(v) == {}
    ensures Consolidated(v) == v
  {
    forall i | i in Marked(v)
      ensures false
    {
      RefIndexKept(v, i);
    }
    WithoutFromSplit(v, {}, 0, |v|);
  }

  // ---------------------------------------------------------------------------
  // Properties of the result

  /** The first and the last sample always survive; series of length 0, 1 or 2 are untouched. */
  lemma ConsolidatedKeepsEnds(v: Series)
    ensures |v| <= 2 ==> Consolidated(v) == v
    ensures var c := Consolidated(v);
      |v| >= 1 ==> c != [] && c[0] == v[0] && Last(c) == Last(v)
  {
    var c := Consolidated(v);
    assert 0 !in Marked(v) && |v| - 1 !in Marked(v);
    if |v| <= 2 {
      assert Marked(v) == {};
      WithoutFromSplit(v, Marked(v), 0, |v|);
    }
    if |v| >= 1 {
      WithoutFromKeepsLast(v, Marked(v), 0);
      assert c == [v[0]] + WithoutFrom(v, Marked(v), 1);
    }
  }

  /** The result keeps the survivors in their original order, so a time-ordered series stays time-ordered. */
  lemma ConsolidatedSubseq(v: Series)
    ensures SubseqOf(Consolidated(v), v)
    ensures |Consolidated(v)| <= |v|
    ensures TsSorted(v) ==> TsSorted(Consolidated(v))
  {
    WithoutFromSubseq(v, Marked(v), 0);
    assert v[0..] == v;
    SubseqOfMembers(Consolidated(v), v);
    if TsSorted(v) {
      SubseqOfSorted(Consolidated(v), v);
    }
  }

  /** The result is shorter exactly when some index was marked. */
  lemma ConsolidatedShorter(v: Series)
    ensures |Consolidated(v)| < |v| <==> Marked(v) != {}
  {
    if Marked(v) == {} {
      WithoutFromSplit(v, {}, 0, |v|);
    } else {
      var k :| k in Marked(v);
      WithoutFromShorter(v, Marked(v), 0, k);
    }
  }

  // ---------------------------------------------------------------------------
  // The algorithm

  /**
   `consolidate_similar`: collects the redundant indices in one forward scan,
   then deletes them from the back so that earlier deletions do not shift the
   later indices. Returns whether anything was removed.
   */
  method ConsolidateSimilar(v: Series) returns (w: Series, removed: bool)
    ensures w == Consolidated(v)
    ensures removed <==> |w| < |v|
  {
    var toBeRemoved: seq<nat> := [];
    if |v| >= 2 {
      var prev := v[0];
      for i := 1 to |v| - 1
        invariant prev == v[RefIndex(v, i)]
        invariant forall k: nat :: k in toBeRemoved <==> k < i && Redundant(v, k)
        invariant Increasing(toBeRemoved)
        invariant forall a :: 0 <= a < |toBeRemoved| ==> toBeRemoved[a] < i
      {
        var cur := v[i];
        if prev.bytesTotal == cur.bytesTotal {
          var minDiffInBytes := Max(1024, prev.bytesTotal / 10000);
          var diff := if prev.bytesFree > cur.bytesFree then prev.bytesFree - cur.bytesFree
                      else cur.bytesFree - prev.bytesFree;
          if diff <= minDiffInBytes {
            assert Redundant(v, i);
            toBeRemoved := toBeRemoved + [i];
          } else {
            assert !Redundant(v, i);
            prev := cur;
          }
        }
      }
    }
    assert forall k :: k in toBeRemoved <==> k in Marked(v);
    // The indices were pushed in increasing order, so sorting leaves them as
    // they are and reversing them amounts to walking them from the back.
    w := v;
    var n := |toBeRemoved|;
    assert Elems(toBeRemoved[n..]) == {};
    WithoutNothing(v, {});
    while n > 0
      invariant 0 <= n <= |toBeRemoved|
      invariant w == Without(v, Elems(toBeRemoved[n..]))
    {
      n := n - 1;
      var idx := toBeRemoved[n];
      var above := Elems(toBeRemoved[n + 1..]);
      assert forall k :: k in above ==> idx < k;
      assert Elems(toBeRemoved[n..]) == above + {idx} by {
        assert toBeRemoved[n..] == [idx] + toBeRemoved[n + 1..];
      }
      RemoveBelow(v, above, idx);
      w := w[..idx] + w[idx + 1..];
    }
    assert toBeRemoved[0..] == toBeRemoved;
    assert Elems(toBeRemoved) == Marked(v);
    ConsolidatedShorter(v);
    removed := |toBeRemoved| > 0;
    assert removed <==> Marked(v) != {} by {
      if |toBeRemoved| > 0 {
        assert toBeRemoved[0] in Marked(v);
      }
    }
  }

  /** The sample series of the unit test: five readings of a 100000-byte disk. */
  function TestSeries(): Series
  {
    [ DiskMeasurement(0, 100_000, 80_000),
      DiskMeasurement(10, 100_000, 80_005),
      DiskMeasurement(20, 100_000, 78_000),
      DiskMeasurement(30, 100_000, 78_100),
      DiskMeasurement(40, 100_000, 78_100) ]
  }

  /**
   The unit test: an empty and a one-sample series are left alone; on the
   five samples something is removed, the first sample is unchanged and the
   timestamps left are 0, 20 and 40.
   */
  lemma ConsolidateExample()
    ensures Marked([]) == {} && Consolidated([]) == []
    ensures var one := TestSeries()[..1]; Marked(one) == {} && Consolidated(one) == one
    ensures var c := Consolidated(TestSeries());
      Marked(TestSeries()) != {} && c[0] == TestSeries()[0]
      && |c| == 3 && c[0].ts == 0 && c[1].ts == 20 && c[2].ts == 40
  {
    var v := TestSeries();
    ConsolidatedKeepsEnds([]);
    ConsolidatedKeepsEnds(v[..1]);
    ConsolidatedShorter(v[..1]);
    assert RefIndex(v, 1) == 0;
    assert RefIndex(v, 2) == 0;
    assert RefIndex(v, 3) == 2;
    assert 1 in Marked(v) && 2 !in Marked(v) && 3 in Marked(v);
    assert Marked(v) == {1, 3};
    assert Consolidated(v) == [v[0], v[2], v[4]];
  }
}
