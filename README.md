# Worker registry of a vector-search background worker

This project models the registry at the heart of the background worker in
`src/bgworker/worker.rs`. One worker process hosts many vector indexes, each
named by an identifier. The worker keeps three pieces of state:

- the **authoritative map** `protect.indexes` from identifier to index handle;
  only `call_create` and `call_destory` change it;
- the **crash-safe record** `protect.startup`, a `FileAtomic<WorkerStartup>`
  that durably maps each identifier to the options its index was created with;
- the **published snapshot** `view`, a copy of the map that is swapped in whole
  and that every read-path call consults.

After a structural change, `WorkerProtect::maintain` first rewrites the record
from the map, then publishes a fresh snapshot. Read-path calls (`call_search`,
`call_insert`, `call_delete`, `call_flush`, `call_stat`, `call_config`) look
their identifier up in the snapshot. They fail with `Index404` when it is
absent, and otherwise forward to the index. `call_insert` retries on the same
handle, calling `refresh()` each time the index reports an outdated view.

## Layout

- `prelude.dfy` (`Prelude`): identifiers, pointers, vectors, index options, the
  caller-facing errors `Index404` and `BadVector`, and `Result`.
- `index.dfy` (`IndexHandle`): a stand-in for the index handle the worker hosts.
  Only the capabilities the worker uses are modelled:
  - a constant `options`;
  - a momentary `View()` value that can be searched;
  - `Insert`, which refuses a vector of the wrong shape and reports
    `OutdatedView` when the view is older than the newest published version;
  - `Refresh`, `Delete` and `Flush`;
  - the sealed count;
  - `Rebuild`, which stands for the background rebuild that makes an earlier
    view outdated.
- `registry.dfy` (`Registry`): the registry as a state machine over the value
  `State(indexes, record, snapshot)`. It holds the three-way consistency
  predicate, the maintenance step, create and destroy, lookups, replay of any
  series of structural calls, and the crash points of storage.
- `worker.dfy` (`BgWorker`): the class `Worker`, with one method per call of
  `worker.rs`. Each structural method is tied to its `Registry` function. Three
  client methods follow the class: an index life cycle, an insert racing a
  rebuild, and a restart.

Each call is one sequential atomic step. The mutation lock is gone, and the
atomic swap of the snapshot becomes an assignment of the `view` field. The
record file becomes the field `startup`, and assigning it is the atomic replace
of `FileAtomic::set`. Two ghost fields track storage. `dirs` holds the index
directories. `crashPoints` lists every durable state storage has passed
through. `Worker.Valid()` requires every such crash point to be recoverable,
meaning every identifier in the record has a directory. So a crash between any
two durable steps leaves a record that names only existing directories. What
those directories hold is not part of `Recoverable`.

## Model

| member | source | states |
|---|---|---|
| `BgWorker.WorkerStartup.New` | src/bgworker/worker.rs:162-167 | the initial record names no index |
| `BgWorker.Worker.Create` | src/bgworker/worker.rs:23-38 | a fresh worker has an empty record (`WorkerStartup::new`), an empty map and an empty snapshot, and storage holds no index directory |
| `BgWorker.Worker.Open` | src/bgworker/worker.rs:39-60 | after reopening from a record, orphan directories are reaped; the map and the snapshot have exactly the record's keys, each entry a fresh handle of its own, distinct from every other id's, opened with that key's recorded options and with its directory's entries, deletions and sealed count; the record is kept as read |
| `BgWorker.Worker.Maintain` | src/bgworker/worker.rs:142-152 | the record becomes each map key with its index's options, and the snapshot becomes the map; the map is untouched; the new record is the next crash point, and the consistency invariant holds afterwards |
| `BgWorker.Worker.CallCreate` | src/bgworker/worker.rs:61-66 | `id` now names a fresh, empty index with the given options, overwriting any earlier entry, and every other id is unchanged; the directory exists at a crash point before the record naming it is written |
| `BgWorker.Worker.CallDestroy` | src/bgworker/worker.rs:113-117 | `id` is removed from map, record and snapshot, every other entry is unchanged, an absent `id` is no error, and the directory stays on disk |
| `BgWorker.Worker.CallSearch` | src/bgworker/worker.rs:67-83 | `Index404` exactly when `id` is not in the snapshot; otherwise the index's search result, with `InvalidVector` turned into `BadVector` of the same vector; at most `k` results, each admitted by the filter and not deleted; no state changes |
| `BgWorker.Worker.CallInsert` | src/bgworker/worker.rs:84-95 | `Index404` exactly when `id` is not in the snapshot; otherwise `Ok` exactly when the index accepts the vector and `BadVector` otherwise, never an outdated view; on `Ok` the entry is appended and the handle has adopted the newest version; only the looked-up handle changes, and the snapshot is not reloaded |
| `BgWorker.Worker.CallDelete` | src/bgworker/worker.rs:96-105 | `Index404` exactly when `id` is not in the snapshot; otherwise always `Ok`, and every stored pointer the filter selects is marked deleted; the handle's entries, sealed and flushed counts and versions are unchanged |
| `BgWorker.Worker.CallFlush` | src/bgworker/worker.rs:106-112 | `Index404` exactly when `id` is not in the snapshot; otherwise `Ok`, with every entry of the index durable; the handle's entries, deletions, sealed count and versions are unchanged |
| `BgWorker.Worker.CallStat` | src/bgworker/worker.rs:118-123 | `Index404` exactly when `id` is not in the snapshot; otherwise the index's sealed count, which never exceeds its entry count; no state changes |
| `BgWorker.Worker.CallConfig` | src/bgworker/worker.rs:124-129 | `Index404` exactly when `id` is not in the snapshot; otherwise the index's options, which equal the options the record holds for `id`; no state changes |
| `BgWorker.IndexLifecycle` | src/bgworker/worker.rs:61-117 | create a four-dimensional index, insert a vector (`Ok`), insert a three-element vector (`BadVector`), search with k = 1 (its pointer), destroy, search again (`Index404`) |
| `BgWorker.InsertAfterRebuild` | src/bgworker/worker.rs:87-94 | an insert whose first view is outdated by a rebuild is retried on the same handle and succeeds |
| `BgWorker.Restart` | src/bgworker/worker.rs:39-60 | after creating an index and reopening the worker from the record it left, get-configuration returns the original options and stat does not fail |
| `BgWorker.IsolationAfterRestart` | src/bgworker/worker.rs:46-49 | after reopening two indexes, an insert into one succeeds and leaves the other's handle and entries as opened |
| `Registry.Maintain` | src/bgworker/worker.rs:142-151 | the map is kept, the record's keys are the map's keys with each index's options, and the result is consistent |
| `Registry.Create` | src/bgworker/worker.rs:61-65 | the result is consistent; `id` names the new handle whatever it named before; the other entries are kept; a lookup of `id` finds that handle and get-configuration returns its options |
| `Registry.Destroy` | src/bgworker/worker.rs:113-117 | the result is consistent, `id` is gone and every other entry is kept, and a lookup and get-configuration of `id` both give `Index404` |
| `Registry.DestroyIdempotent` | src/bgworker/worker.rs:113-117 | destroying twice gives the same state as destroying once, and destroying an absent id in a consistent state changes nothing |
| `Registry.CreateOverwrites` | src/bgworker/worker.rs:61-65 | a second create of the same id replaces the first completely |
| `Registry.StructuralCallsCommute` | src/bgworker/worker.rs:61-117 | a create and a destroy of different ids give the same state in either order |
| `Registry.CreatesCommute` | src/bgworker/worker.rs:61-65 | two creates of different ids give the same state in either order |
| `Registry.DestroysCommute` | src/bgworker/worker.rs:113-117 | two destroys of different ids give the same state in either order |
| `Registry.ReplayReadsLastCall` | src/bgworker/worker.rs:61-128 | after any series of structural calls from a consistent state, the state is consistent, and a lookup or get-configuration of `id` reflects the last call naming `id`: the handle it created and that handle's options, or `Index404` after a destroy |
| `Registry.Reap` | src/bgworker/worker.rs:41-44 | the orphan reaper keeps only directories the record claims, and keeps every claimed directory that exists |
| `Registry.CreateCrashPoints` | src/bgworker/worker.rs:61-65 | both crash points of a create are recoverable, and each holds either the old or the new record; the directory is created first, then the record is written |
| `Registry.RecordFirstIsUnrecoverable` | src/bgworker/worker.rs:63-65 | if the record were written before the index's directory existed, that crash point would be unrecoverable |
| `IndexHandle.IndexView.Search` | src/bgworker/worker.rs:78-79 | refuses exactly the queries of the wrong shape, with the query as the error; otherwise at most `k` pointers, each stored, not deleted and admitted by the filter, and all of them when `k` covers the index |
| `IndexHandle.Visible` | src/bgworker/worker.rs:79 | the search candidates: exactly the stored pointers that are not deleted and that the filter admits |
| `IndexHandle.Index.View` | src/bgworker/worker.rs:78 | a momentary view carries the handle's options and adopted version, never newer than the latest, and sees its current entries, deletions and sealed count |
| `IndexHandle.Index.Insert` | src/bgworker/worker.rs:88-89 | a wrong-shape vector is refused; a view older than the newest version is reported outdated and stores nothing; otherwise the entry is appended |
| `IndexHandle.Index.Refresh` | src/bgworker/worker.rs:92 | the handle adopts the newest published version and nothing else changes |
| `IndexHandle.Index.Delete` | src/bgworker/worker.rs:102-103 | every stored pointer the filter selects is marked deleted, and the entries are unchanged |
| `IndexHandle.Index.Flush` | src/bgworker/worker.rs:109-110 | every entry becomes durable |
| `IndexHandle.Index.Create` | src/bgworker/worker.rs:63 | a new handle is empty and carries the options it was created with |
| `IndexHandle.Index.Open` | src/bgworker/worker.rs:48 | a reopened handle carries the options it was opened with and its directory's stored entries, deletions and sealed count |

## Left out

- Concurrency. The `parking_lot::Mutex` and the `ArcSwap` load and swap are not modelled. Each call is one sequential atomic step. An in-flight call that keeps a handle after a concurrent destroy is therefore not represented.
- Filesystem effects are not modelled: `create_dir`, `sync_dir`, and building paths with `path.join`. Index directories appear only as the ghost set `dirs`. A crash during `Worker::create` itself, before the record file exists, is not modelled.
- `FileAtomic` internals are out. The record is a plain field, and assigning it is the atomic replace.
- `clean` is modelled only by its effect, `Registry.Reap`. Listing and deleting directories is not modelled.
- Serialisation is the identity. This covers `serde_json::to_string` in `call_config` and the `serde_with` encoding of `WorkerStartup`, so get-configuration returns the options themselves.
- The index internals are a stand-in. This covers `Index::create`, `open`, `view`, `refresh`, `search`, `insert`, `delete`, `flush` and `sealed_len`, whose bodies are not part of this model. Vector validation is a dimension check. The content an index reads from its directory on open is the parameter `stored` of `Worker.Open`.
- IndexHandle.IndexView.Search does not model nearest-neighbour ranking or distances. Candidates come in storage order, so the contract promises only bounds, membership and filtering.
- IndexHandle.Index.Insert checks the vector's shape before it checks the view's staleness. That order is a modelling choice, because the index's own code is not part of this model.
- BgWorker.Worker.CallFlush does not model a storage failure. The source unwraps the flush result, so a failure is a panic rather than an error value.
- BgWorker.Worker.CallStat returns an unbounded `nat` where the source returns a `u32`.
- BgWorker.Worker.Open requires every recorded identifier to have a directory. The source would fail fatally otherwise. `Worker.Valid()` shows that every crash point meets this requirement. It also requires each directory's sealed count to be at most its entry count, which is what an index stores.
- Registry.CreateCrashPoints: recoverability only checks that a directory exists for every recorded identifier, not what the directory holds. A create at an identifier whose directory already exists is modelled as a fresh, empty index at that path, because what `Index::create` does with an existing path is not part of this model. This case arises for an overwritten identifier, or a destroyed one whose directory has not yet been reaped.
- The filter passed to search and delete is a pure, total `Pointer -> bool`. A source filter is `FnMut`, so it may keep state between calls, and that is not modelled.
- Scalar is `real`. The source's `f32` components, with their rounding and special values, are not modelled.
- BgWorker.Worker.CallDestroy is spelled `call_destory` in the source.
- `src/utils/cells.rs` is left out as a whole. Its thin wrappers over `Cell`, `RefCell` and `UnsafeCell` give cross-thread aliasing permission, which a sequential model does not need.
- `FriendlyError` has more variants than the two these calls produce. Only `Index404` and `BadVector` are modelled.
