# minimon disk-space store, modelled in Dafny

minimon is a small disk-space monitor. It has two programs:

- The server (`src/minimon.rs`) polls the local mount points at an interval and keeps a bounded in-memory history per mount point. It also polls peer servers for their latest samples.
- The agent (`src/minimonagent.rs`) keeps its own bounded history and serves it.

This project models the in-memory store of both programs, and the update step of the peers' store.

- `measurement.dfy`, module `Measurement`:
  - `DiskMeasurement` (timestamp, capacity and free bytes, all u64);
  - a series (a `VecDeque` in the source, a `seq` here);
  - the per-mount-point map (a `HashMap` in the source, a `map` here);
  - order-preserving subsequences and time order.
- `consolidation.dfy`, module `Consolidation`, models `consolidate_similar`, the lossy compaction of one series.
  - `RefIndex`, `Marked` and `Consolidated` specify it: the reference sample at each step, the set of redundant interior indices, and the series that remains once those indices are deleted.
  - The method `ConsolidateSimilar` has the source's two loops and is proved to compute exactly `Consolidated`.
- `series_store.dfy`, module `SeriesStore`, holds the retention policy. The capacity `keep` is a parameter there (`keep >= 1`); the two programs share the policy.
  - The bounded upsert (`Upsert`): consolidate at capacity, pop from the front below capacity, append.
  - One poll's worth of upserts (`ReadAll`).
  - Eviction of stale mount points (`RemoveOld`).
  - One poll tick (`Tick`), including the u64 cutoff `now - 86400`.
- `minimon.dfy`, module `Minimon`, models the server with `KEEP = 500`:
  - the store as a class whose methods update it in place and are proved equal to the `SeriesStore` functions;
  - the filtered copy served to the web pages;
  - the latest-sample-per-mount-point projection;
  - the peers' store, as a class whose update step takes the fetch result as an input.
- `minimonagent.dfy`, module `MinimonAgent`, models the agent with `KEEP = 50`.
  - The agent's `read_diskspace` inlines the upsert, and the model does the same.
  - It is proved against the same `SeriesStore` functions.

The following points follow the code where its comments say otherwise.

- **Samples of a new capacity never become the reference.** In `consolidate_similar` the reference (`prev`) moves only inside the equal-capacity branch (`src/minimon.rs:68-80`). The comment at `src/minimon.rs:65` says "keep the last of the old and the first of the new size". In fact every interior sample whose capacity differs from the first sample's is kept, and none of them ever becomes the reference (`ResizedSampleKept`). So after a capacity change, a call deletes nothing from the new-capacity part of the series (`ResizeStopsConsolidation`). This lasts only while the front sample still has the old capacity. Each upsert at capacity pops samples from the front (`src/minimon.rs:160-162`), and once every old-capacity sample is gone, the new-capacity samples consolidate again.
- **A successful fetch from a peer never deletes.** Only rows that carry a sample write an entry. A mount point the peer stops reporting stays until a fetch from that peer fails (`MergeRowsSpec`).
- **The tick's cutoff wraps.** It is the u64 subtraction `now - 86400` (`src/minimon.rs:417`, `src/minimonagent.rs:245`). The model computes it as a release build does: wrap-around modulo 2^64. With a clock less than a day past the epoch (the clock's fallback is 0), the cutoff lands near 2^64, and the tick evicts every mount point, including the ones just read (`TickBeforeFirstDayDropsReadings`).

## Model

| member | source | states |
|---|---|---|
| Consolidation.ConsolidateSimilar | src/minimon.rs:60-89 | the scan and the back-to-front deletion leave exactly `Consolidated(v)`; the flag is true iff the series got shorter |
| Consolidation.RefIndex | src/minimon.rs:64-80 | the reference at step `i` is an earlier index (the value of `prev` when index `i` is examined) |
| Consolidation.RefIndexKept | src/minimon.rs:66-80 | the reference is never deleted, and always has the first sample's capacity |
| Consolidation.RemovedOnlyNearKept | src/minimon.rs:66-77 | a deleted sample is interior, and lies within the tolerance of an earlier retained sample of the same capacity |
| Consolidation.RemovalRule | src/minimon.rs:66-80 | an interior sample is deleted iff it has the first sample's capacity and its free space is within `max(1024, total/10000)` of the reference |
| Consolidation.KeptSameCapacityBecomesReference | src/minimon.rs:75-79 | a retained interior sample of the reference's capacity becomes the next reference |
| Consolidation.ResizedSampleKept | src/minimon.rs:65-68 | a sample whose capacity differs from the first sample's is never deleted and never becomes the reference |
| Consolidation.ResizeStopsConsolidation | src/minimon.rs:65-80 | when no interior sample shares the first sample's capacity, nothing is deleted |
| Consolidation.ConsolidatedKeepsEnds | src/minimon.rs:63-66 | series of length at most 2 are unchanged; the first and last samples always survive |
| Consolidation.ConsolidatedSubseq | src/minimon.rs:83-87 | the result is an order-preserving subsequence of the input, never longer, and time order is preserved |
| Consolidation.ConsolidatedShorter | src/minimon.rs:83-88 | the result is shorter iff some index was marked, which is when the source returns true |
| Consolidation.ConsolidateExample | src/minimon.rs:96-132 | the unit test: empty and one-sample series unchanged; on the five samples something is removed, `v[0]` is kept, and the timestamps left are 0, 20, 40 |
| SeriesStore.TrimSuffix | src/minimon.rs:159-162 | the pop loop leaves the newest `keep - 1` samples of a full series, and leaves a shorter series alone |
| SeriesStore.UpsertBounded | src/minimon.rs:149-168 | after an upsert the key exists, its series ends with the new sample and holds 1 to `keep` samples; an absent key gets `[dm]`; below capacity the sample is appended; other keys are unchanged |
| SeriesStore.MakeRoomSubseq | src/minimon.rs:157-163 | at capacity, what is kept of the old series is the newest `keep - 1` samples of its consolidation; it is always an ordered subsequence of the old series |
| SeriesStore.UpsertKeepsOrder | src/minimon.rs:157-164 | all but the last sample of the new series come from the old series in order; a time-ordered series stays time-ordered when the new sample is not older |
| SeriesStore.ReadAllSpec | src/minimon.rs:170-175 | after reading a list of disks the keys are the old keys plus the mount points read; each mount point read holds 1 to `keep` samples, the last taken at `now`; other keys are unchanged |
| SeriesStore.ReadAllLatestWins | src/minimon.rs:170-175 | when a mount point is listed twice, its series ends with the reading of its last occurrence |
| SeriesStore.RemoveOldSpec | src/minimon.rs:400-407 | a key survives iff its series is non-empty and its last timestamp is after the cutoff; survivors are unchanged; a later cutoff keeps no more keys; evicting twice is evicting once |
| SeriesStore.CutoffNoWrap | src/minimon.rs:417 | with the clock at least a day past the epoch, the cutoff is exactly `now - 86400` |
| SeriesStore.TickKeepsFreshReadings | src/minimon.rs:409-418 | with the clock at least a day past the epoch, a tick keeps every mount point just read, with a bounded series ending at `now`; every surviving key has a sample newer than a day, and no key is new except the mount points read |
| SeriesStore.TickBeforeFirstDayDropsReadings | src/minimon.rs:413-417 | with the clock less than a day past the epoch, the cutoff wraps to `2^64 + now - 86400`, and the tick evicts every mount point it read |
| Minimon.LocalMeasurements.AddDiskMeasurement | src/minimon.rs:149-168 | the in-place upsert (insert if absent, consolidate, pop loop, push) leaves `Upsert(old, name, dm, 500)` and keeps every series at 500 samples or fewer |
| Minimon.LocalMeasurements.ReadDiskspaces | src/minimon.rs:170-175 | upserting each disk's reading in turn leaves `ReadAll(old, now, disks, 500)` |
| Minimon.LocalMeasurements.RemoveOldMountpoints | src/minimon.rs:400-407 | the in-place retain leaves `RemoveOld(old, cutoff)` |
| Minimon.LocalMeasurements.MeasureLocalDiskTick | src/minimon.rs:412-418 | one iteration of the poll loop leaves `Tick(old, now, disks, 500)`, with the wrapped u64 cutoff |
| Minimon.SinceSpec | src/minimon.rs:209 | the filter is the series with exactly the positions of the samples older than the threshold deleted: it keeps each sample at or after the threshold, as often as it occurs, in order |
| Minimon.SinceDeletesOlder | src/minimon.rs:209 | from any position on, the filter deletes exactly the older samples |
| Minimon.SinceSortedSuffix | src/minimon.rs:205-213 | on a time-ordered series the filter drops exactly the prefix older than the threshold |
| Minimon.CreateFilteredCopyDms | src/minimon.rs:205-213 | the copy has the same mount points, and each series is the original filtered at the threshold |
| Minimon.FilteredCopyExample | src/minimon.rs:234-261 | the unit test: thresholds 0, 10, 90 and 91 keep 10, 9, 1 and 0 samples, with first and last timestamps as asserted there |
| Minimon.TestDataShape | src/minimon.rs:218-232 | the test data are ten time-ordered samples with timestamps 0, 10, ..., 90 |
| Minimon.GetRecentMeasurements | src/minimon.rs:315-329 | one row per mount point; a row has no sample iff its series is empty, and otherwise carries the series' last sample |
| Minimon.RecentIsNewest | src/minimon.rs:315-329 | on a time-ordered series the row carries a sample of the series with the greatest timestamp |
| Minimon.RecentAfterTick | src/minimon.rs:315-329 | after a tick, the row of each mount point read carries the reading just taken of it |
| Minimon.MergeRowsSpec | src/minimon.rs:485-498 | a successful fetch adds exactly the keys of the rows that carry a sample, and every other entry keeps its value (nothing is deleted) |
| Minimon.MergeRowsLatestWins | src/minimon.rs:487-495 | when a mount point appears in several rows with a sample, the last such row's sample is stored |
| Minimon.RepopulateAfterFailure | src/minimon.rs:484-504 | a failed fetch removes exactly the peer's entries; a later successful fetch leaves exactly the mount points of that answer that carry a sample; other peers are untouched |
| Minimon.RoundFailedPeerAbsent | src/minimon.rs:481-506 | after a pass over the peers, a peer whose last fetch failed has no entry |
| Minimon.RemoteMeasurements.UpdateFromRemote | src/minimon.rs:484-504 | the loop body of `collect_remote_disk_thread`: on success it inserts row by row; on failure it retains the other peers' entries; either way it leaves `ApplyFetch(old, remote, fetched)` |
| Minimon.RemoteMeasurements.CollectRemoteRound | src/minimon.rs:481-506 | one pass over the peers leaves `Round(old, fetches)` |
| MinimonAgent.ConsolidateSimilar | src/minimonagent.rs:58-87 | the agent's copy computes exactly `Consolidated(v)` and returns true iff something was removed; so every consolidation lemma, the unit test at src/minimonagent.rs:93-130 included, holds for it |
| MinimonAgent.ReadDiskspaceBounded | src/minimonagent.rs:133-164 | with `KEEP = 50`, every mount point read holds 1 to 50 samples, the last taken at `now`; mount points not read are unchanged |
| MinimonAgent.AgentMeasurements.ReadDiskspace | src/minimonagent.rs:133-164 | the inlined per-disk upsert leaves `ReadAll(old, now, disks, 50)` and keeps every series at 50 samples or fewer |
| MinimonAgent.AgentMeasurements.RemoveOldMountpoints | src/minimonagent.rs:226-236 | the in-place retain leaves `RemoveOld(old, cutoff)` |
| MinimonAgent.AgentMeasurements.MeasureTick | src/minimonagent.rs:238-251 | one iteration of `measure_thread` leaves `Tick(old, now, disks, 50)` |

## Left out

- HTTP handlers, templates and JSON responses (`home`, `current`, `overview`, `print_type_of`) and `match_str`: these are presentation and I/O.
- `convert_disk_measurement` and the `Display` implementations: they compute f32 percentages for display.
- `collect_remote`: it does an HTTP GET and JSON decoding. Its `Option` result is an input of `UpdateFromRemote`, where `None` stands for any failure.
- The fixed list of peer URLs is not modelled. `CollectRemoteRound` takes the sequence of (peer, fetch result) pairs instead.
- Enumerating the disks (sysinfo `Disks`): the list of disks, each with its mount point, capacity and available space, is an input.
- `get_now`: the clock is an input `now`.
- Threads, `Mutex` locking, lock-poison unwraps and the sleeps between ticks: one tick body, or one peer update, is modelled as a sequential step.
- In the peer update the source takes the lock once per row. So another thread can observe the store between rows, and the model does not capture those intermediate states.
- `HashMap` iteration order and the order of the rows `get_recent_measurements` returns: the stores are maps, and the projection is a map from mount point to its row.
- `ConsolidateSimilar` works on the series as a value, returning the new series. The source updates the `VecDeque` in place through `&mut`, and aliasing of that deque is not modelled.
- A debug build panics on the u64 underflow of `now - 86400`. The model follows a release build, which wraps.
- `KEEP = 0` is not modelled. The functions require `keep >= 1`, because with 0 the source's pop loop never ends. Both programs use a positive constant.
- The `None` arm of `get_mut` after the key was inserted cannot be taken, so it is not modelled.
- The two display strings of each row a peer reports are carried in `RemoteRow.extra` but are never read.
- build.rs, the Debian packaging script and the benchmark are not part of this model, because they have no logic of the store.
