/**
 The agent (`src/minimonagent.rs`): a stand-alone copy of the local store
 with capacity 50, whose poll loop inlines the bounded upsert.
 */
module MinimonAgent {
  import opened Measurement
  import opened SeriesStore
  import Consolidation

  /** Samples kept in memory per mount point. */
  const KEEP: nat := 50

  /**
   The agent's `consolidate_similar`, a verbatim copy of the server's: same
   scan, same tolerance, same deletion order, same result.
   */
  method ConsolidateSimilar(v: Series) returns (w: Series, removed: bool)
    ensures w == Consolidation.Consolidated(v)
    ensures removed <==> |w| < |v|
  {
    w, removed := Consolidation.ConsolidateSimilar(v);
  }

  /**
   `read_diskspace` with KEEP = 50: every mount point read ends up with at
   most 50 samples, the last one taken at `now`; the mount points not read
   are left as they were.
   */
  lemma ReadDiskspaceBounded(m: DiskMeasurementMap, now: u64, disks: seq<Disk>)
    ensures var r := ReadAll(m, now, disks, KEEP);
      && r.Keys == m.Keys + Mounts(disks)
      && (forall k :: k in Mounts(disks) ==> 1 <= |r[k]| <= 50 && Last(r[k]).ts == now)
      && (forall k :: k in m && k !in Mounts(disks) ==> r[k] == m[k])
  {
    ReadAllSpec(m, now, disks, KEEP);
  }

  /** `AppState::measurements` of the agent. */
  class AgentMeasurements {
    var measurements: DiskMeasurementMap

    /** No series is longer than `KEEP`. */
    ghost predicate Valid()
      reads this
    {
      forall k :: k in measurements ==> |measurements[k]| <= KEEP
    }

    constructor ()
      ensures Valid() && measurements == map[]
    {
      measurements := map[];
    }

    /** `read_diskspace`: for each disk, a bounded append to the series of its mount point. */
    method ReadDiskspace(now: u64, disks: seq<Disk>)
      requires Valid()
      modifies this
      ensures Valid()
      ensures measurements == ReadAll(old(measurements), now, disks, KEEP)
    {
      for i := 0 to |disks|
        invariant Valid()
        invariant measurements == ReadAll(old(measurements), now, disks[..i], KEEP)
      {
        var disk := disks[i];
        var mntName := disk.mountPoint;
        var dm := DiskMeasurement(now, disk.totalSpace, disk.availableSpace);
        ghost var before := measurements;
        // mount points come and go
        if mntName !in measurements {
          measurements := measurements[mntName := []];
        }
        var q := measurements[mntName];
        ghost var q0 := q;
        if |q| >= KEEP {
          var removed;
          q, removed := ConsolidateSimilar(q);
          // keep the length of the series below the maximum
          while |q| >= KEEP
            invariant Trim(q, KEEP) == Trim(Consolidation.Consolidated(q0), KEEP)
          {
            q := q[1..];
          }
        }
        assert q == MakeRoom(q0, KEEP);
        measurements := measurements[mntName := q + [dm]];
        UpsertBounded(before, mntName, dm, KEEP);
        assert measurements == Upsert(before, mntName, dm, KEEP);
        assert disks[..i + 1][..i] == disks[..i];
      }
      assert disks[..|disks|] == disks;
    }

    /** `remove_old_mountpoints`: retain the mount points whose last sample is newer than the cutoff. */
    method RemoveOldMountpoints(measurementsOlderThan: u64)
      requires Valid()
      modifies this
      ensures Valid()
      ensures measurements == RemoveOld(old(measurements), measurementsOlderThan)
    {
      measurements := map k | k in measurements && Recent(measurements[k], measurementsOlderThan) :: measurements[k];
    }

    /** One iteration of `measure_thread`, with the clock and the disks as inputs. */
    method MeasureTick(now: u64, disks: seq<Disk>)
      requires Valid()
      modifies this
      ensures Valid()
      ensures measurements == Tick(old(measurements), now, disks, KEEP)
    {
      ReadDiskspace(now, disks);
      // u64 subtraction, wrapping when `now` is less than a day
      RemoveOldMountpoints((now - 24 * 60 * 60) % U64_LIMIT);
    }
  }
}
