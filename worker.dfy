/**
 * The background worker of src/bgworker/worker.rs. Each call is one atomic
 * step: the mutation lock and the atomically swapped snapshot are replaced by
 * sequential updates of the fields below.
 */
module BgWorker {
  import opened Prelude
  import opened IndexHandle
  import opened Registry

  /** The value the crash-safe record holds: every index's options. */
  datatype WorkerStartup = WorkerStartup(indexes: map<Id, Options>)
  {
    /** The record of a worker that hosts no index yet. */
    static function New(): (r: WorkerStartup)
      ensures r.indexes.Keys == {} && |r.indexes| == 0
    {
      WorkerStartup(map[])
    }
  }

  /** Serialised search outcome of an index, translated to the caller-facing error. */
  function SearchReply(o: Outcome<seq<Pointer>, SearchError>): Result<seq<Pointer>> {
    match o
    case Success(pointers) => Ok(pointers)
    case Failure(SearchInvalidVector(x)) => Err(BadVector(x))
  }

  /** Different identifiers name different handles: each index is created or opened on its own. */
  ghost predicate Distinct(indexes: map<Id, Index>) {
    forall a, b :: a in indexes && b in indexes && a != b ==> indexes[a] != indexes[b]
  }

  class Worker {
    /** The authoritative map, changed only by structural calls. */
    var indexes: map<Id, Index>
    /** The crash-safe record; assigning it is the atomic replace of the record file. */
    var startup: WorkerStartup
    /** The published snapshot, replaced whole. */
    var view: map<Id, Index>
    /** The index directories on disk. */
    ghost var dirs: set<Id>
    /** Every durable state storage has passed through since the worker was built. */
    ghost var crashPoints: seq<Disk>

    function Abstract(): State
      reads this
    {
      State(indexes, startup.indexes, view)
    }

    ghost function OnDisk(): Disk
      reads this
    {
      Disk(dirs, startup.indexes)
    }

    ghost predicate Valid()
      reads this, indexes.Values
    {
      && Consistent(Abstract())
      && (forall id :: id in indexes ==> indexes[id].Valid())
      && Distinct(indexes)
      && Recoverable(OnDisk())
      && |crashPoints| > 0 && crashPoints[|crashPoints| - 1] == OnDisk()
      && (forall i :: 0 <= i < |crashPoints| ==> Recoverable(crashPoints[i]))
    }

    /** The handle a read-path call on `id` may change: the one the snapshot names. */
    function Target(id: Id): set<Index>
      reads this
    {
      if id in view then {view[id]} else {}
    }

    /** A fresh worker: empty record, empty map, empty snapshot. */
    constructor Create()
      ensures Valid()
      ensures startup == WorkerStartup.New() && indexes == map[] && view == map[]
      ensures dirs == {} && crashPoints == [Disk({}, map[])]
    {
      startup := WorkerStartup.New();
      indexes := map[];
      view := indexes;
      dirs := {};
      crashPoints := [Disk({}, map[])];
    }

    /**
     * Reopens a worker from its crash-safe record: orphan directories are
     * reaped, then every recorded index is opened with its recorded options
     * from its directory's durable contents `stored(id)`.
     */
    constructor Open(record: WorkerStartup, ghost onDisk: set<Id>, stored: Id -> Persisted)
      requires Recoverable(Disk(onDisk, record.indexes))
      requires forall id :: id in record.indexes ==> stored(id).sealed <= |stored(id).entries|
      ensures Valid() && Distinct(indexes)
      ensures startup == record && view == indexes
      ensures indexes.Keys == record.indexes.Keys
      ensures forall id :: id in indexes ==>
                fresh(indexes[id]) && indexes[id].options == record.indexes[id]
      ensures forall id :: id in indexes ==>
                indexes[id].entries == stored(id).entries && indexes[id].deleted == stored(id).deleted
                && indexes[id].sealed == stored(id).sealed
      ensures dirs == record.indexes.Keys && crashPoints == [Disk(dirs, record.indexes)]
    {
      var built: map<Id, Index> := map[];
      var rest := record.indexes.Keys;
      while rest != {}
        invariant rest <= record.indexes.Keys
        invariant built.Keys == record.indexes.Keys - rest
        invariant forall id :: id in built ==>
                    fresh(built[id]) && built[id].Valid()
                    && built[id].options == record.indexes[id] && built[id].entries == stored(id).entries
                    && built[id].deleted == stored(id).deleted && built[id].sealed == stored(id).sealed
        invariant Distinct(built)
        decreases rest
      {
        var id :| id in rest;
        var index := new Index.Open(record.indexes[id], stored(id));
        built := built[id := index];
        rest := rest - {id};
      }
      startup := record;
      indexes := built;
      view := indexes;
      dirs := Reap(onDisk, record.indexes.Keys);
      crashPoints := [Disk(dirs, record.indexes)];
    }

    /** The maintenance step: rewrite the record from the map, then publish a copy of the map. */
    method Maintain()
      requires Recoverable(Disk(dirs, RecordOf(indexes)))
      requires forall i :: 0 <= i < |crashPoints| ==> Recoverable(crashPoints[i])
      requires forall id :: id in indexes ==> indexes[id].Valid()
      requires Distinct(indexes)
      modifies this
      ensures Valid()
      ensures Abstract() == Registry.Maintain(old(Abstract()))
      ensures dirs == old(dirs) && crashPoints == old(crashPoints) + [OnDisk()]
    {
      startup := WorkerStartup(RecordOf(indexes));
      crashPoints := crashPoints + [OnDisk()];
      view := indexes;
    }

    /**
     * Creates index `id` with `options`, overwriting any earlier entry. The
     * index's directory exists before the record naming it is written.
     */
    method CallCreate(id: Id, options: Options)
      requires Valid()
      modifies this
      ensures Valid()
      ensures id in indexes && fresh(indexes[id]) && indexes[id].options == options
      ensures indexes[id].entries == [] && indexes[id].deleted == {} && indexes[id].sealed == 0
      ensures Abstract() == Registry.Create(old(Abstract()), id, indexes[id])
      ensures dirs == old(dirs) + {id}
      ensures crashPoints == old(crashPoints) + CreateCrashPoints(old(OnDisk()), id, options)
    {
      var index := new Index.Create(options);
      dirs := dirs + {id};
      crashPoints := crashPoints + [OnDisk()];
      indexes := indexes[id := index];
      assert RecordOf(indexes) == old(startup.indexes)[id := options];
      Maintain();
    }

    /** Removes `id` if present; never an error. Its directory is left for the reaper. */
    method CallDestroy(id: Id)
      requires Valid()
      modifies this
      ensures Valid()
      ensures Abstract() == Registry.Destroy(old(Abstract()), id)
      ensures dirs == old(dirs) && crashPoints == old(crashPoints) + [Disk(dirs, startup.indexes)]
      ensures startup.indexes == old(startup.indexes) - {id}
    {
      indexes := indexes - {id};
      Maintain();
    }

    method CallSearch(id: Id, query: Vector, k: nat, keep: Pointer -> bool) returns (r: Result<seq<Pointer>>)
      requires Valid()
      ensures r == Err(Index404) <==> id !in view
      ensures id in view ==> r == SearchReply(view[id].View().Search(k, query, keep))
      ensures id in view ==> (r.Err? <==> !Accepts(view[id].options, query))
      ensures id in view && r.Err? ==> r == Err(BadVector(query))
      ensures r.Ok? ==> |r.value| <= k && forall p :: p in r.value ==> keep(p) && p !in view[id].deleted
    {
      if id !in view {
        return Err(Index404);
      }
      var index := view[id];
      var v := index.View();
      r := SearchReply(v.Search(k, query, keep));
    }

    /**
     * Inserts into the index the snapshot names, retrying on the same handle
     * after each outdated-view report until the insert succeeds or the vector
     * is refused.
     */
    method CallInsert(id: Id, vector: Vector, pointer: Pointer) returns (r: Result<()>)
      requires Valid()
      modifies Target(id)
      ensures Valid()
      ensures r == Err(Index404) <==> id !in view
      ensures id in view ==> (r == Ok(()) <==> Accepts(view[id].options, vector))
      ensures id in view && r != Ok(()) ==> r == Err(BadVector(vector))
      ensures id in view && r.Ok? ==> view[id].entries == old(view[id].entries) + [Entry(vector, pointer)]
      ensures id in view && r.Err? ==> view[id].entries == old(view[id].entries)
      ensures id in view ==> view[id].deleted == old(view[id].deleted) && view[id].sealed == old(view[id].sealed)
      ensures id in view ==> view[id].flushed == old(view[id].flushed) && view[id].latest == old(view[id].latest)
      ensures id in view ==> view[id].version == if r.Ok? then view[id].latest else old(view[id].version)
    {
      if id !in view {
        return Err(Index404);
      }
      var index := view[id];
      while true
        invariant index.Valid()
        invariant index.entries == old(index.entries) && index.deleted == old(index.deleted)
        invariant index.sealed == old(index.sealed) && index.flushed == old(index.flushed)
        invariant index.latest == old(index.latest)
        invariant index.version == old(index.version) || (Accepts(index.options, vector) && index.version == index.latest)
        decreases index.latest - index.version
      {
        var v := index.View();
        var outcome := index.Insert(v, vector, pointer);
        match outcome
        case Success(_) =>
          return Ok(());
        case Failure(InsertInvalidVector(x)) =>
          return Err(BadVector(x));
        case Failure(OutdatedView) =>
          index.Refresh();
      }
    }

    /** Marks every pointer `doomed` selects as deleted in the index the snapshot names. */
    method CallDelete(id: Id, doomed: Pointer -> bool) returns (r: Result<()>)
      requires Valid()
      modifies Target(id)
      ensures Valid()
      ensures r == Err(Index404) <==> id !in view
      ensures id in view ==> r == Ok(())
      ensures id in view ==> view[id].deleted == old(view[id].deleted) + set p | p in Pointers(view[id].entries) && doomed(p)
      ensures id in view ==> view[id].entries == old(view[id].entries) && view[id].sealed == old(view[id].sealed)
      ensures id in view ==> view[id].flushed == old(view[id].flushed)
      ensures id in view ==> view[id].version == old(view[id].version) && view[id].latest == old(view[id].latest)
    {
      if id !in view {
        return Err(Index404);
      }
      var index := view[id];
      index.Delete(doomed);
      r := Ok(());
    }

    /** Makes the index the snapshot names durable. */
    method CallFlush(id: Id) returns (r: Result<()>)
      requires Valid()
      modifies Target(id)
      ensures Valid()
      ensures r == Err(Index404) <==> id !in view
      ensures id in view ==> r == Ok(())
      ensures id in view ==> view[id].flushed == |view[id].entries| && view[id].entries == old(view[id].entries)
      ensures id in view ==> view[id].deleted == old(view[id].deleted) && view[id].sealed == old(view[id].sealed)
      ensures id in view ==> view[id].version == old(view[id].version) && view[id].latest == old(view[id].latest)
    {
      if id !in view {
        return Err(Index404);
      }
      var index := view[id];
      index.Flush();
      r := Ok(());
    }

    /** The number of sealed entries of the index the snapshot names. */
    method CallStat(id: Id) returns (r: Result<nat>)
      requires Valid()
      ensures r == Err(Index404) <==> id !in view
      ensures id in view ==> r == Ok(view[id].sealed)
      ensures r.Ok? ==> r.value <= |view[id].entries|
    {
      if id !in view {
        return Err(Index404);
      }
      var index := view[id];
      r := Ok(index.View().sealed);
    }

    /** The options of the index the snapshot names, serialisation taken as the identity. */
    method CallConfig(id: Id) returns (r: Result<Options>)
      requires Valid()
      ensures r == Config(Abstract(), id)
      ensures r == Err(Index404) <==> id !in view
      ensures id in view ==> r == Ok(view[id].options) && r.value == startup.indexes[id]
    {
      if id !in view {
        return Err(Index404);
      }
      var index := view[id];
      r := Ok(index.options);
    }
  }

  /**
   * Create an index of four dimensions, insert one vector, try a vector of the
   * wrong shape, search, destroy, search again.
   */
  method IndexLifecycle() returns (first: Result<()>, second: Result<()>, hits: Result<seq<Pointer>>, gone: Result<seq<Pointer>>)
    ensures first == Ok(()) && second == Err(BadVector([1.0, 0.0, 0.0]))
    ensures hits == Ok([1]) && gone == Err(Index404)
  {
    var w := new Worker.Create();
    w.CallCreate(0, Options(4, L2));
    var index := w.view[0];
    assert index.entries == [] && index.deleted == {} && Accepts(index.options, [1.0, 0.0, 0.0, 0.0]);
    first := w.CallInsert(0, [1.0, 0.0, 0.0, 0.0], 1);
    assert index.entries == [Entry([1.0, 0.0, 0.0, 0.0], 1)];
    second := w.CallInsert(0, [1.0, 0.0, 0.0], 2);
    assert index.entries == [Entry([1.0, 0.0, 0.0, 0.0], 1)] && index.deleted == {};
    var everything := (p: Pointer) => true;
    assert Visible(index.entries, {}, everything) == [1] by {
      assert index.entries[1..] == [];
    }
    hits := w.CallSearch(0, [1.0, 0.0, 0.0, 0.0], 1, everything);
    w.CallDestroy(0);
    gone := w.CallSearch(0, [1.0, 0.0, 0.0, 0.0], 1, everything);
  }

  /** An insert racing a rebuild is retried on the same handle and succeeds. */
  method InsertAfterRebuild() returns (r: Result<()>)
    ensures r == Ok(())
  {
    var w := new Worker.Create();
    w.CallCreate(3, Options(2, Cosine));
    var index := w.view[3];
    index.Rebuild();
    r := w.CallInsert(3, [0.5, 0.5], 9);
  }

  /** Create an index, stop the worker and reopen it from what storage holds. */
  method Restart(stored: Id -> Persisted) returns (config: Result<Options>, stat: Result<nat>)
    requires stored(7).sealed <= |stored(7).entries|
    ensures config == Ok(Options(4, Dot)) && stat.Ok?
  {
    var w := new Worker.Create();
    w.CallCreate(7, Options(4, Dot));
    var reopened := new Worker.Open(w.startup, w.dirs, stored);
    config := reopened.CallConfig(7);
    stat := reopened.CallStat(7);
  }

  /** After a restart, an insert into one index leaves every other index as it was opened. */
  method IsolationAfterRestart(stored: Id -> Persisted) returns (r: Result<()>, untouched: seq<Entry>)
    requires stored(1).sealed <= |stored(1).entries| && stored(2).sealed <= |stored(2).entries|
    ensures r == Ok(()) && untouched == stored(2).entries
  {
    var o := Options(2, L2);
    var w := new Worker.Open(WorkerStartup(map[1 := o, 2 := o]), {1, 2}, stored);
    r := w.CallInsert(1, [0.0, 0.0], 5);
    untouched := w.view[2].entries;
  }
}
