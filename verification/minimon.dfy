/**
 The server (`src/minimon.rs`): the local store with capacity 500 and its
 poll tick, the read-only views over it (a filtered copy and the latest
 sample per mount point), and the store of the latest samples reported by
 peers together with its update after each fetch.
 */
module Minimon {
  import opened Measurement
  import opened Consolidation
  import opened SeriesStore

  /** Samples kept in memory per mount point. */
  const KEEP: nat := 500

  /** The local store (`AppState::local_measurements`). */
  class LocalMeasurements {
    var measurements: DiskMeasurementMap

    /** No series is longer than `KEEP`. */
    ghost predicate Valid()
      reads this
    {
      forall k :: k in measurements ==> |measurements[k]| <= KEEP
    }

    constructor ()
      ensures Valid() && measurements == map[]
    {
      measurements := map[];
    }

    /** `add_diskmeasurement`: a bounded append to the series of `mntName`. */
    method AddDiskMeasurement(mntName: string, dm: DiskMeasurement)
      requires Valid()
      modifies this
      ensures Valid()
      ensures measurements == Upsert(old(measurements), mntName, dm, KEEP)
    {
      // mount points come and go
      if mntName !in measurements {
        measurements := measurements[mntName := []];
      }
      var q := measurements[mntName];
      ghost var q0 := q;
      if |q| >= KEEP {
        var removed;
        q, removed := ConsolidateSimilar(q);
        // keep the length of the series below the maximum
        while |q| >= KEEP
          invariant Trim(q, KEEP) == Trim(Consolidated(q0), KEEP)
        {
          q := q[1..];
        }
      }
      assert q == MakeRoom(q0, KEEP);
      measurements := measurements[mntName := q + [dm]];
      UpsertBounded(old(measurements), mntName, dm, KEEP);
    }

    /** `read_diskspaces`: one upsert per disk, in the order the platform lists them. */
    method ReadDiskspaces(now: u64, disks: seq<Disk>)
      requires Valid()
      modifies this
      ensures Valid()
      ensures measurements == ReadAll(old(measurements), now, disks, KEEP)
    {
      for i := 0 to |disks|
        invariant Valid()
        invariant measurements == ReadAll(old(measurements), now, disks[..i], KEEP)
      {
        var disk := disks[i];
        AddDiskMeasurement(disk.mountPoint, Reading(now, disk));
        assert disks[..i + 1][..i] == disks[..i];
      }
      assert disks[..|disks|] == disks;
    }

    /** `remove_old_mountpoints`: retain the mount points whose last sample is newer than the cutoff. */
    method RemoveOldMountpoints(measurementsOlderThan: u64)
      requires Valid()
      modifies this
      ensures Valid()
      ensures measurements == RemoveOld(old(measurements), measurementsOlderThan)
    {
      measurements := map k | k in measurements && Recent(measurements[k], measurementsOlderThan) :: measurements[k];
    }

    /** One iteration of `measure_local_disk_thread`, with the clock and the disks as inputs. */
    method MeasureLocalDiskTick(now: u64, disks: seq<Disk>)
      requires Valid()
      modifies this
      ensures Valid()
      ensures measurements == Tick(old(measurements), now, disks, KEEP)
    {
      ReadDiskspaces(now, disks);
      // u64 subtraction, wrapping when `now` is less than a day
      RemoveOldMountpoints((now - 24 * 60 * 60) % U64_LIMIT);
    }
  }

  // ---------------------------------------------------------------------------
  // The filtered copy

  /** The samples of `v` taken at or after `threshold`, in order (`retain(|dm| dm.ts >= threshold)`). */
  function Since(v: Series, threshold: u64): Series
  {
    if v == [] then []
    else (if v[0].ts >= threshold then [v[0]] else []) + Since(v[1..], threshold)
  }

  /** The positions of the samples taken before `threshold`. */
  function Older(v: Series, threshold: u64): set<nat>
  {
    set i: nat | i < |v| && v[i].ts < threshold
  }

  /**
   The filter keeps exactly the samples at or after the threshold, in their
   order: it is `v` with the positions of the older samples deleted, so each
   kept sample appears as often as in `v`.
   */
  lemma SinceSpec(v: Series, threshold: u64)
    ensures Since(v, threshold) == Without(v, Older(v, threshold))
    ensures forall x :: x in Since(v, threshold) <==> x in v && x.ts >= threshold
    ensures SubseqOf(Since(v, threshold), v)
  {
    SinceDeletesOlder(v, threshold, 0);
    assert v[0..] == v;
    SinceMembers(v, threshold);
  }

  /** From position `i` on, the filter deletes exactly the older samples. */
  lemma {:induction false} SinceDeletesOlder(v: Series, threshold: u64, i: nat)
    requires i <= |v|
    ensures Since(v[i..], threshold) == WithoutFrom(v, Older(v, threshold), i)
    decreases |v| - i
  {
    if i < |v| {
      SinceDeletesOlder(v, threshold, i + 1);
      assert v[i..][0] == v[i] && v[i..][1..] == v[i + 1..];
      assert i in Older(v, threshold) <==> v[i].ts < threshold;
    }
  }

  lemma {:induction false} SinceMembers(v: Series, threshold: u64)
    ensures forall x :: x in Since(v, threshold) <==> x in v && x.ts >= threshold
    ensures SubseqOf(Since(v, threshold), v)
  {
    if v != [] {
      SinceMembers(v[1..], threshold);
      var rest := Since(v[1..], threshold);
      if v[0].ts >= threshold {
        assert Since(v, threshold) == [v[0]] + rest;
        assert Since(v, threshold)[1..] == rest;
      } else {
        assert Since(v, threshold) == rest;
      }
      assert forall x :: x in v <==> x == v[0] || x in v[1..];
    }
  }

  /** On a time-ordered series the filter cuts off a prefix: the samples older than the threshold. */
  lemma {:induction false} SinceSortedSuffix(v: Series, threshold: u64, k: nat)
    requires TsSorted(v) && k <= |v|
    requires 0 < k ==> v[k - 1].ts < threshold
    requires k < |v| ==> v[k].ts >= threshold
    ensures Since(v, threshold) == v[k..]
    decreases |v|
  {
    if v != [] {
      assert TsSorted(v[1..]);
      if k == 0 {
        SinceSortedSuffix(v[1..], threshold, 0);
        assert v == [v[0]] + v[1..];
      } else {
        SinceSortedSuffix(v[1..], threshold, k - 1);
        assert v[1..][k - 1..] == v[k..];
      }
    }
  }

  /** `create_filtered_copy_dms`: a copy of the store with every series filtered; the input is left alone. */
  method CreateFilteredCopyDms(orig: DiskMeasurementMap, threshold: u64) returns (c: DiskMeasurementMap)
    ensures c.Keys == orig.Keys
    ensures forall k :: k in c ==> c[k] == Since(orig[k], threshold)
  {
    c := map[];
    var todo := orig.Keys;
    while todo != {}
      invariant todo <= orig.Keys
      invariant c.Keys == orig.Keys - todo
      invariant forall k :: k in c ==> c[k] == Since(orig[k], threshold)
      decreases todo
    {
      var k :| k in todo;
      var v := Since(orig[k], threshold);
      c := c[k := v];
      todo := todo - {k};
    }
  }

  /** The series of the unit test: ten samples, ten seconds apart, from 0 to 90. */
  function TestData(): Series
  {
    [ DiskMeasurement(0, 100_000, 80_000), DiskMeasurement(10, 100_000, 78_000),
      DiskMeasurement(20, 100_000, 76_000), DiskMeasurement(30, 100_000, 74_000),
      DiskMeasurement(40, 100_000, 72_000), DiskMeasurement(50, 100_000, 70_000),
      DiskMeasurement(60, 100_000, 68_000), DiskMeasurement(70, 100_000, 66_000),
      DiskMeasurement(80, 100_000, 64_000), DiskMeasurement(90, 100_000, 62_000) ]
  }

  /**
   The unit test of the filtered copy: thresholds 0, 10, 90 and 91 keep 10, 9,
   1 and 0 samples, from the first kept timestamp to 90.
   */
  lemma FilteredCopyExample()
    ensures var all := Since(TestData(), 0);
      |all| == 10 && all[0].ts == 0 && Last(all).ts == 90
    ensures var cut := Since(TestData(), 10);
      |cut| == 9 && cut[0].ts == 10 && Last(cut).ts == 90
    ensures var one := Since(TestData(), 90);
      |one| == 1 && one[0].ts == 90
    ensures Since(TestData(), 91) == []
  {
    var v := TestData();
    TestDataShape();
    SinceSortedSuffix(v, 0, 0);
    SinceSortedSuffix(v, 10, 1);
    SinceSortedSuffix(v, 90, 9);
    SinceSortedSuffix(v, 91, 10);
  }

  lemma TestDataShape()
    ensures |TestData()| == 10 && TsSorted(TestData())
    ensures forall i :: 0 <= i < 10 ==> TestData()[i].ts == 10 * i
  {
    var v := TestData();
    assert forall i :: 0 <= i < |v| ==> v[i].ts == 10 * i;
  }

  // ---------------------------------------------------------------------------
  // The latest sample per mount point

  function LastOf(v: Series): Option<DiskMeasurement>
  {
    if v == [] then None else Some(Last(v))
  }

  /** `get_recent_measurements`: one row per mount point with its latest sample, if any. */
  function GetRecentMeasurements(hm: DiskMeasurementMap): (rows: map<string, Option<DiskMeasurement>>)
    ensures rows.Keys == hm.Keys
    ensures forall k :: k in rows ==> (rows[k] == None <==> hm[k] == [])
    ensures forall k :: k in hm && hm[k] != [] ==> rows[k] == Some(Last(hm[k]))
  {
    map k | k in hm :: LastOf(hm[k])
  }

  /** On a time-ordered series the row carries a sample of the series with the greatest timestamp. */
  lemma RecentIsNewest(hm: DiskMeasurementMap, k: string)
    requires k in hm && hm[k] != [] && TsSorted(hm[k])
    ensures var row := GetRecentMeasurements(hm)[k];
      row.Some? && row.value in hm[k] && forall x :: x in hm[k] ==> x.ts <= row.value.ts
  {
  }

  /**
   After a poll tick (clock at least a day past the epoch) the row of every
   mount point read carries the reading taken of it in that tick.
   */
  lemma RecentAfterTick(m: DiskMeasurementMap, now: u64, disks: seq<Disk>, i: nat)
    requires now >= DAY && i < |disks|
    requires forall j :: i < j < |disks| ==> disks[j].mountPoint != disks[i].mountPoint
    ensures var rows := GetRecentMeasurements(Tick(m, now, disks, KEEP));
      disks[i].mountPoint in rows && rows[disks[i].mountPoint] == Some(Reading(now, disks[i]))
  {
    ReadAllLatestWins(m, now, disks, KEEP, i);
    CutoffNoWrap(now);
  }

  // ---------------------------------------------------------------------------
  // The store of the peers' latest samples

  /** One element of a peer's `current` answer: mount point, latest sample if any, and two display strings. */
  datatype RemoteRow = RemoteRow(mountpoint: string, dm: Option<DiskMeasurement>, extra: (string, string))

  /** `AppState::remote_measurements`: (peer URL, mount point) to the latest sample. */
  type RemoteMap = map<(string, string), DiskMeasurement>

  /** A successful fetch: every row with a sample overwrites its entry, rows applied in order. */
  function MergeRows(m: RemoteMap, remote: string, rows: seq<RemoteRow>): RemoteMap
    decreases |rows|
  {
    if rows == [] then m
    else
      var row := rows[|rows| - 1];
      var prev := MergeRows(m, remote, rows[..|rows| - 1]);
      match row.dm
      case Some(dm) => prev[(remote, row.mountpoint) := dm]
      case None => prev
  }

  /** A failed fetch: every entry of the peer goes. */
  function DropPeer(m: RemoteMap, remote: string): RemoteMap
  {
    map k | k in m && k.0 != remote :: m[k]
  }

  /** The effect of one fetch of `remote` on the store (`None` is any failure of the fetch). */
  function ApplyFetch(m: RemoteMap, remote: string, fetched: Option<seq<RemoteRow>>): RemoteMap
  {
    match fetched
    case Some(rows) => MergeRows(m, remote, rows)
    case None => DropPeer(m, remote)
  }

  /** The keys a successful answer writes. */
  function Reported(remote: string, rows: seq<RemoteRow>): set<(string, string)>
  {
    set i | 0 <= i < |rows| && rows[i].dm.Some? :: (remote, rows[i].mountpoint)
  }

  /** One pass over the peers, in order. */
  function Round(m: RemoteMap, fetches: seq<(string, Option<seq<RemoteRow>>)>): RemoteMap
    decreases |fetches|
  {
    if fetches == [] then m
    else
      var f := fetches[|fetches| - 1];
      ApplyFetch(Round(m, fetches[..|fetches| - 1]), f.0, f.1)
  }

  /**
   A successful fetch adds exactly the keys of the rows that carry a sample
   and never deletes: every other entry, of this peer or another, keeps its
   value, even a mount point the peer no longer reports.
   */
  lemma {:induction false} MergeRowsSpec(m: RemoteMap, remote: string, rows: seq<RemoteRow>)
    ensures var r := MergeRows(m, remote, rows);
      && r.Keys == m.Keys + Reported(remote, rows)
      && (forall k :: k in m && k !in Reported(remote, rows) ==> r[k] == m[k])
    decreases |rows|
  {
    if rows != [] {
      var init := rows[..|rows| - 1];
      var row := rows[|rows| - 1];
      MergeRowsSpec(m, remote, init);
      assert forall i :: 0 <= i < |init| ==> init[i] == rows[i];
      if row.dm.Some? {
        assert Reported(remote, rows) == Reported(remote, init) + {(remote, row.mountpoint)};
      } else {
        assert Reported(remote, rows) == Reported(remote, init);
      }
    }
  }

  /** When a mount point appears in several rows with a sample, the last such row wins. */
  lemma {:induction false} MergeRowsLatestWins(m: RemoteMap, remote: string, rows: seq<RemoteRow>, i: nat)
    requires i < |rows| && rows[i].dm.Some?
    requires forall j :: i < j < |rows| ==> rows[j].mountpoint != rows[i].mountpoint || rows[j].dm.None?
    ensures var r := MergeRows(m, remote, rows);
      (remote, rows[i].mountpoint) in r && r[(remote, rows[i].mountpoint)] == rows[i].dm.value
    decreases |rows|
  {
    var init := rows[..|rows| - 1];
    if i < |rows| - 1 {
      MergeRowsLatestWins(m, remote, init, i);
      assert init[i] == rows[i];
    }
  }

  /**
   A failed fetch removes exactly the peer's entries; the next successful
   fetch of that peer leaves exactly the mount points of its answer that carry
   a sample, with nothing left over from before the failure. Other peers'
   entries are untouched by both.
   */
  lemma RepopulateAfterFailure(m: RemoteMap, remote: string, rows: seq<RemoteRow>)
    ensures var failed := ApplyFetch(m, remote, None);
      forall k :: k in failed <==> k in m && k.0 != remote
    ensures var after := ApplyFetch(ApplyFetch(m, remote, None), remote, Some(rows));
      && (forall k: (string, string) :: k.0 == remote ==> (k in after <==> k in Reported(remote, rows)))
      && (forall k: (string, string) :: k.0 != remote ==> (k in after <==> k in m) && (k in m ==> after[k] == m[k]))
  {
    MergeRowsSpec(DropPeer(m, remote), remote, rows);
  }

  /**
   After a round, a peer whose last fetch in the round failed has no entry
   left, whatever the other peers answered.
   */
  lemma {:induction false} RoundFailedPeerAbsent(m: RemoteMap, fetches: seq<(string, Option<seq<RemoteRow>>)>, i: nat)
    requires i < |fetches| && fetches[i].1 == None
    requires forall j :: i < j < |fetches| ==> fetches[j].0 != fetches[i].0
    ensures forall k :: k in Round(m, fetches) ==> k.0 != fetches[i].0
    decreases |fetches|
  {
    var init := fetches[..|fetches| - 1];
    var f := fetches[|fetches| - 1];
    if i < |fetches| - 1 {
      assert init[i] == fetches[i];
      RoundFailedPeerAbsent(m, init, i);
      if f.1.Some? {
        MergeRowsSpec(Round(m, init), f.0, f.1.value);
      }
    }
  }

  /** `AppState::remote_measurements`, updated by `collect_remote_disk_thread`. */
  class RemoteMeasurements {
    var entries: RemoteMap

    constructor ()
      ensures entries == map[]
    {
      entries := map[];
    }

    /**
     The body of the loop over the peers in `collect_remote_disk_thread`,
     with the result of `collect_remote` as input.
     */
    method UpdateFromRemote(remote: string, fetched: Option<seq<RemoteRow>>)
      modifies this
      ensures entries == ApplyFetch(old(entries), remote, fetched)
    {
      match fetched {
        case Some(rows) =>
          for i := 0 to |rows|
            invariant entries == MergeRows(old(entries), remote, rows[..i])
          {
            var row := rows[i];
            match row.dm {
              case Some(dm) =>
                entries := entries[(remote, row.mountpoint) := dm];
              case None =>
            }
            assert rows[..i + 1][..i] == rows[..i];
          }
          assert rows[..|rows|] == rows;
        case None =>
          // in case of an error: remove the old entries of this peer
          entries := map k | k in entries && k.0 != remote :: entries[k];
      }
    }

    /** One pass of `collect_remote_disk_thread` over its list of peers. */
    method CollectRemoteRound(fetches: seq<(string, Option<seq<RemoteRow>>)>)
      modifies this
      ensures entries == Round(old(entries), fetches)
    {
      for i := 0 to |fetches|
        invariant entries == Round(old(entries), fetches[..i])
      {
        UpdateFromRemote(fetches[i].0, fetches[i].1);
        assert fetches[..i + 1][..i] == fetches[..i];
      }
      assert fetches[..|fetches|] == fetches;
    }
  }
}
