/**
 The retention policy of the per-mount-point store, shared by the server and
 the agent: the bounded upsert (`add_diskmeasurement`, and its inlined copy in
 the agent's `read_diskspace`), one poll's worth of upserts, the eviction of
 stale mount points (`remove_old_mountpoints`) and one poll tick.
 The capacity `keep` is a parameter here; the server uses 500, the agent 50.
 */
module SeriesStore {
  import opened Measurement
  import opened Consolidation

  /** Seconds in a day: a mount point without a sample for this long is dropped. */
  const DAY: nat := 24 * 60 * 60

  /** A disk as reported by the platform: its mount point, capacity and available space. */
  datatype Disk = Disk(mountPoint: string, totalSpace: u64, availableSpace: u64)

  /** The measurement `read_diskspace` makes of a disk at time `now`. */
  function Reading(now: u64, d: Disk): DiskMeasurement
  {
    DiskMeasurement(now, d.totalSpace, d.availableSpace)
  }

  /** Drop samples from the front until fewer than `keep` remain (the `pop_front` loop). */
  function Trim(q: Series, keep: nat): Series
    requires keep >= 1
    decreases |q|
  {
    if |q| < keep then q else Trim(q[1..], keep)
  }

  /** The part of the old series that survives an upsert. */
  function MakeRoom(q: Series, keep: nat): Series
    requires keep >= 1
  {
    if |q| >= keep then Trim(Consolidated(q), keep) else q
  }

  /** The store after `add_diskmeasurement(m, name, dm)`. */
  function Upsert(m: DiskMeasurementMap, name: string, dm: DiskMeasurement, keep: nat): DiskMeasurementMap
    requires keep >= 1
  {
    var q := if name in m then m[name] else [];
    m[name := MakeRoom(q, keep) + [dm]]
  }

  /** The store after upserting the readings of `disks`, in order, at time `now`. */
  function ReadAll(m: DiskMeasurementMap, now: u64, disks: seq<Disk>, keep: nat): DiskMeasurementMap
    requires keep >= 1
    decreases |disks|
  {
    if disks == [] then m
    else
      var d := disks[|disks| - 1];
      Upsert(ReadAll(m, now, disks[..|disks| - 1], keep), d.mountPoint, Reading(now, d), keep)
  }

  function Mounts(disks: seq<Disk>): set<string>
  {
    set i | 0 <= i < |disks| :: disks[i].mountPoint
  }

  /** The retain predicate of `remove_old_mountpoints`: the last sample is newer than the cutoff. */
  predicate Recent(v: Series, olderThan: int)
  {
    v != [] && Last(v).ts > olderThan
  }

  /** The store after `remove_old_mountpoints(m, olderThan)`. */
  function RemoveOld(m: DiskMeasurementMap, olderThan: int): DiskMeasurementMap
  {
    map k | k in m && Recent(m[k], olderThan) :: m[k]
  }

  /** `now - 24 * 60 * 60` as Rust computes it in u64 (a release build wraps around). */
  function Cutoff(now: u64): u64
  {
    (now - DAY) % U64_LIMIT
  }

  /** One poll tick: read every disk, then drop the mount points not refreshed within a day. */
  function Tick(m: DiskMeasurementMap, now: u64, disks: seq<Disk>, keep: nat): DiskMeasurementMap
    requires keep >= 1
  {
    RemoveOld(ReadAll(m, now, disks, keep), Cutoff(now))
  }

  // ---------------------------------------------------------------------------
  // Upsert

  /** The pop loop leaves the newest `keep - 1` samples when the series is full. */
  lemma {:induction false} TrimSuffix(q: Series, keep: nat)
    requires keep >= 1
    ensures Trim(q, keep) == if |q| < keep then q else q[|q| - (keep - 1)..]
    decreases |q|
  {
    if |q| >= keep {
      TrimSuffix(q[1..], keep);
      assert q[1..][|q| - 1 - (keep - 1)..] == q[|q| - (keep - 1)..];
    }
  }

  /**
   After an upsert the key exists, its series ends with the new sample and
   holds at most `keep` samples; below capacity the sample is simply appended;
   every other key is unchanged.
   */
  lemma UpsertBounded(m: DiskMeasurementMap, name: string, dm: DiskMeasurement, keep: nat)
    requires keep >= 1
    ensures var r := Upsert(m, name, dm, keep);
      && r.Keys == m.Keys + {name}
      && 1 <= |r[name]| <= keep
      && Last(r[name]) == dm
      && (name !in m ==> r[name] == [dm])
      && (name in m && |m[name]| < keep ==> r[name] == m[name] + [dm])
      && (forall k :: k in m && k != name ==> r[k] == m[k])
  {
    var q := if name in m then m[name] else [];
    if |q| >= keep {
      TrimSuffix(Consolidated(q), keep);
    }
  }

  /**
   At capacity, what survives of the old series is the newest `keep - 1`
   samples of its consolidation (all of it, if shorter): the oldest samples go
   first. In every case the survivors are an ordered subsequence of the old
   series.
   */
  lemma MakeRoomSubseq(q: Series, keep: nat)
    requires keep >= 1
    ensures |q| >= keep ==>
      var c := Consolidated(q);
      MakeRoom(q, keep) == if |c| < keep then c else c[|c| - (keep - 1)..]
    ensures SubseqOf(MakeRoom(q, keep), q)
  {
    if |q| >= keep {
      var c := Consolidated(q);
      TrimSuffix(c, keep);
      ConsolidatedSubseq(q);
      SubseqOfSuffix(c, if |c| < keep then 0 else |c| - (keep - 1));
      assert c[0..] == c;
      SubseqOfTrans(MakeRoom(q, keep), c, q);
    } else {
      SubseqOfSelf(q);
    }
  }

  /**
   The upserted series is the surviving part of the old one followed by the
   new sample, so a time-ordered series stays time-ordered when the new
   sample is not older than the last one.
   */
  lemma UpsertKeepsOrder(m: DiskMeasurementMap, name: string, dm: DiskMeasurement, keep: nat)
    requires keep >= 1 && name in m
    ensures var r := Upsert(m, name, dm, keep)[name];
      SubseqOf(r[..|r| - 1], m[name])
    ensures var q := m[name];
      TsSorted(q) && (q != [] ==> Last(q).ts <= dm.ts) ==> TsSorted(Upsert(m, name, dm, keep)[name])
  {
    var q := m[name];
    var r := Upsert(m, name, dm, keep)[name];
    var kept := MakeRoom(q, keep);
    assert r[..|r| - 1] == kept;
    MakeRoomSubseq(q, keep);
    SubseqOfMembers(kept, q);
    if TsSorted(q) && (q != [] ==> Last(q).ts <= dm.ts) {
      SubseqOfSorted(kept, q);
      forall i, j | 0 <= i < j < |r|
        ensures r[i].ts <= r[j].ts
      {
        if j == |r| - 1 {
          assert r[i] == kept[i] && kept[i] in q;
          var x :| 0 <= x < |q| && q[x] == kept[i];
          assert q[x].ts <= q[|q| - 1].ts;
        } else {
          assert r[i] == kept[i] && r[j] == kept[j];
        }
      }
    }
  }

  // ---------------------------------------------------------------------------
  // Reading all disks

  /**
   After reading a list of disks, the keys are the old ones plus the mount
   points read; every mount point read holds a bounded series whose last
   sample was taken at `now`; every other key is unchanged.
   */
  lemma {:induction false} ReadAllSpec(m: DiskMeasurementMap, now: u64, disks: seq<Disk>, keep: nat)
    requires keep >= 1
    ensures var r := ReadAll(m, now, disks, keep);
      && r.Keys == m.Keys + Mounts(disks)
      && (forall k :: k in m && k !in Mounts(disks) ==> r[k] == m[k])
      && (forall k :: k in Mounts(disks) ==> 1 <= |r[k]| <= keep && Last(r[k]).ts == now)
    decreases |disks|
  {
    if disks != [] {
      var init := disks[..|disks| - 1];
      var d := disks[|disks| - 1];
      var prev := ReadAll(m, now, init, keep);
      ReadAllSpec(m, now, init, keep);
      UpsertBounded(prev, d.mountPoint, Reading(now, d), keep);
      MountsSnoc(disks);
    }
  }

  lemma MountsSnoc(disks: seq<Disk>)
    requires disks != []
    ensures Mounts(disks) == Mounts(disks[..|disks| - 1]) + {disks[|disks| - 1].mountPoint}
  {
    var init := disks[..|disks| - 1];
    forall k | k in Mounts(disks)
      ensures k in Mounts(init) + {disks[|disks| - 1].mountPoint}
    {
      var i :| 0 <= i < |disks| && disks[i].mountPoint == k;
      if i < |disks| - 1 {
        assert init[i] == disks[i];
      }
    }
    forall k | k in Mounts(init)
      ensures k in Mounts(disks)
    {
      var i :| 0 <= i < |init| && init[i].mountPoint == k;
      assert disks[i] == init[i];
    }
  }

  /** When a mount point appears more than once, its last reading in the list wins. */
  lemma {:induction false} ReadAllLatestWins(m: DiskMeasurementMap, now: u64, disks: seq<Disk>, keep: nat, i: nat)
    requires keep >= 1 && i < |disks|
    requires forall j :: i < j < |disks| ==> disks[j].mountPoint != disks[i].mountPoint
    ensures var r := ReadAll(m, now, disks, keep);
      disks[i].mountPoint in r && r[disks[i].mountPoint] != []
      && Last(r[disks[i].mountPoint]) == Reading(now, disks[i])
    decreases |disks|
  {
    var init := disks[..|disks| - 1];
    var d := disks[|disks| - 1];
    var prev := ReadAll(m, now, init, keep);
    UpsertBounded(prev, d.mountPoint, Reading(now, d), keep);
    if i < |disks| - 1 {
      ReadAllLatestWins(m, now, init, keep, i);
      assert init[i] == disks[i];
    }
  }

  // ---------------------------------------------------------------------------
  // Eviction and the poll tick

  /**
   Eviction keeps a key exactly when its series is non-empty and its last
   sample is newer than the cutoff; survivors are unchanged. A later cutoff
   never keeps more, and evicting twice with the same cutoff changes nothing.
   */
  lemma RemoveOldSpec(m: DiskMeasurementMap, olderThan: int, later: int)
    requires olderThan <= later
    ensures var r := RemoveOld(m, olderThan);
      && (forall k :: k in r <==> k in m && m[k] != [] && Last(m[k]).ts > olderThan)
      && (forall k :: k in r ==> r[k] == m[k])
      && RemoveOld(m, later).Keys <= r.Keys
      && RemoveOld(r, olderThan) == r
  {
  }

  /** The u64 subtraction does not wrap once the clock is at least a day past the epoch. */
  lemma CutoffNoWrap(now: u64)
    requires now >= DAY
    ensures Cutoff(now) == now - DAY
  {
  }

  /**
   With a clock at least a day past the epoch, a poll tick keeps every mount
   point it has just read, with a bounded series ending at `now`, and every
   mount point that survives has a sample newer than a day.
   */
  lemma TickKeepsFreshReadings(m: DiskMeasurementMap, now: u64, disks: seq<Disk>, keep: nat)
    requires keep >= 1 && now >= DAY
    ensures var r := Tick(m, now, disks, keep);
      && (forall k :: k in Mounts(disks) ==> k in r && 1 <= |r[k]| <= keep && Last(r[k]).ts == now)
      && (forall k :: k in r ==> r[k] != [] && Last(r[k]).ts > now - DAY)
      && r.Keys <= m.Keys + Mounts(disks)
  {
    ReadAllSpec(m, now, disks, keep);
    CutoffNoWrap(now);
  }

  /**
   With the clock's fallback value (less than a day past the epoch) the
   subtraction wraps to a cutoff near 2^64, and the tick evicts every mount
   point it has just read.
   */
  lemma TickBeforeFirstDayDropsReadings(m: DiskMeasurementMap, now: u64, disks: seq<Disk>, keep: nat)
    requires keep >= 1 && now < DAY
    ensures Cutoff(now) == U64_LIMIT + now - DAY
    ensures forall k :: k in Mounts(disks) ==> k !in Tick(m, now, disks, keep)
  {
    ReadAllSpec(m, now, disks, keep);
  }
}
