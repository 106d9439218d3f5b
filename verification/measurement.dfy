/**
 The data model shared by the server (minimon) and the agent (minimonagent):
 one disk measurement, a series of them, and the facts about order-preserving
 subsequences that the retention policy relies on.
 */
module Measurement {

  /** Rust's `u64`: the range of every counter and timestamp below. */
  const U64_LIMIT: int := 0x1_0000_0000_0000_0000
  type u64 = x: int | 0 <= x < U64_LIMIT

  datatype Option<T> = None | Some(value: T)

  /** One sample of one mount point: seconds since the epoch, capacity and free bytes. */
  datatype DiskMeasurement = DiskMeasurement(ts: u64, bytesTotal: u64, bytesFree: u64)

  /** The measurements of one mount point, oldest first (a `VecDeque` in the source). */
  type Series = seq<DiskMeasurement>

  /** The per-mount-point store (`DiskMeasurementMap`, a `HashMap` in the source). */
  type DiskMeasurementMap = map<string, Series>

  function Last(s: Series): DiskMeasurement
    requires s != []
  {
    s[|s| - 1]
  }

  /** Timestamps never decrease along the series. */
  ghost predicate TsSorted(s: Series)
  {
    forall i, j :: 0 <= i < j < |s| ==> s[i].ts <= s[j].ts
  }

  /** `a` is obtained from `b` by deleting elements, keeping the order of the rest. */
  ghost predicate SubseqOf<T>(a: seq<T>, b: seq<T>)
    decreases |b|
  {
    a == [] || (b != [] && ((a[0] == b[0] && SubseqOf(a[1..], b[1..])) || SubseqOf(a, b[1..])))
  }

  lemma {:induction false} SubseqOfSuffix<T>(s: seq<T>, k: nat)
    requires k <= |s|
    ensures SubseqOf(s[k..], s)
    decreases |s|
  {
    if k == 0 {
      SubseqOfSelf(s);
    } else {
      SubseqOfSuffix(s[1..], k - 1);
      assert s[1..][k - 1..] == s[k..];
    }
  }

  lemma {:induction false} SubseqOfSelf<T>(s: seq<T>)
    ensures SubseqOf(s, s)
    decreases |s|
  {
    if s != [] {
      SubseqOfSelf(s[1..]);
    }
  }

  /** Deleting elements twice is deleting elements once. */
  lemma {:induction false} SubseqOfTrans<T>(a: seq<T>, b: seq<T>, c: seq<T>)
    requires SubseqOf(a, b) && SubseqOf(b, c)
    ensures SubseqOf(a, c)
    decreases |c|
  {
    if a != [] {
      if b[0] == c[0] && SubseqOf(b[1..], c[1..]) {
        if a[0] == b[0] && SubseqOf(a[1..], b[1..]) {
          SubseqOfTrans(a[1..], b[1..], c[1..]);
        } else {
          SubseqOfTrans(a, b[1..], c[1..]);
        }
      } else {
        SubseqOfTrans(a, b, c[1..]);
      }
    }
  }

  /** A subsequence is no longer than the sequence and holds only its elements. */
  lemma {:induction false} SubseqOfMembers<T>(a: seq<T>, b: seq<T>)
    requires SubseqOf(a, b)
    ensures |a| <= |b|
    ensures forall x :: x in a ==> x in b
    decreases |b|
  {
    if a != [] {
      if a[0] == b[0] && SubseqOf(a[1..], b[1..]) {
        SubseqOfMembers(a[1..], b[1..]);
        forall x | x in a
          ensures x in b
        {
          if x != a[0] {
            assert x in a[1..];
          }
        }
      } else {
        SubseqOfMembers(a, b[1..]);
      }
    }
  }

  /** Deleting samples from a time-ordered series leaves it time-ordered. */
  lemma {:induction false} SubseqOfSorted(a: Series, b: Series)
    requires SubseqOf(a, b) && TsSorted(b)
    ensures TsSorted(a)
    decreases |b|
  {
    if a != [] {
      assert TsSorted(b[1..]);
      if a[0] == b[0] && SubseqOf(a[1..], b[1..]) {
        SubseqOfSorted(a[1..], b[1..]);
        SubseqOfMembers(a[1..], b[1..]);
        forall i, j | 0 <= i < j < |a|
          ensures a[i].ts <= a[j].ts
        {
          if i == 0 {
            assert a[j] == a[1..][j - 1];
            assert a[j] in a[1..];
            assert a[j] in b[1..];
            var k :| 0 <= k < |b[1..]| && b[1..][k] == a[j];
            assert b[k + 1] == a[j];
          } else {
            assert a[i] == a[1..][i - 1] && a[j] == a[1..][j - 1];
          }
        }
      } else {
        SubseqOfSorted(a, b[1..]);
      }
    }
  }
}
