/**
 * The worker registry as a state machine over values. Its state is the three
 * pieces the worker keeps: the authoritative map from identifier to index
 * handle, the crash-safe record (identifier to options) and the published
 * snapshot. Structural calls change the map and then run the maintenance step;
 * read-path calls look identifiers up in the snapshot only.
 */
module Registry {
  import opened Prelude
  import opened IndexHandle

  datatype State = State(indexes: map<Id, Index>, record: map<Id, Options>, snapshot: map<Id, Index>)

  /** The record the maintenance step writes for `indexes`: each key with its index's options. */
  function RecordOf(indexes: map<Id, Index>): map<Id, Options> {
    map id | id in indexes :: indexes[id].options
  }

  /** The three-way consistency every public operation leaves behind. */
  predicate Consistent(s: State) {
    s.record == RecordOf(s.indexes) && s.snapshot == s.indexes
  }

  /** Rewrite the record from the map, then publish a copy of the map. */
  function Maintain(s: State): (r: State)
    ensures r.indexes == s.indexes && Consistent(r)
    ensures r.record.Keys == s.indexes.Keys
    ensures forall id :: id in s.indexes ==> r.record[id] == s.indexes[id].options
  {
    State(s.indexes, RecordOf(s.indexes), s.indexes)
  }

  /** What a read-path call finds for `id`: the handle in the published snapshot, or Index404. */
  function Lookup(s: State, id: Id): Result<Index> {
    if id in s.snapshot then Ok(s.snapshot[id]) else Err(Index404)
  }

  /** What get-configuration reports for `id`, serialisation taken as the identity. */
  function Config(s: State, id: Id): Result<Options> {
    if id in s.snapshot then Ok(s.snapshot[id].options) else Err(Index404)
  }

  /** Structural create: `id` now names `index`, overwriting any earlier entry. */
  function Create(s: State, id: Id, index: Index): (r: State)
    ensures Consistent(r)
    ensures r.indexes.Keys == s.indexes.Keys + {id} && r.indexes[id] == index
    ensures forall other :: other in s.indexes && other != id ==> r.indexes[other] == s.indexes[other]
    ensures Lookup(r, id) == Ok(index) && Config(r, id) == Ok(index.options)
  {
    Maintain(s.(indexes := s.indexes[id := index]))
  }

  /** Structural destroy: `id` no longer names anything; an absent `id` is not an error. */
  function Destroy(s: State, id: Id): (r: State)
    ensures Consistent(r)
    ensures r.indexes.Keys == s.indexes.Keys - {id}
    ensures forall other :: other in r.indexes ==> r.indexes[other] == s.indexes[other]
    ensures Lookup(r, id) == Err(Index404) && Config(r, id) == Err(Index404)
  {
    Maintain(s.(indexes := s.indexes - {id}))
  }

  /** Destroying twice is destroying once; destroying an absent id changes nothing. */
  lemma DestroyIdempotent(s: State, id: Id)
    ensures Destroy(Destroy(s, id), id) == Destroy(s, id)
    ensures Consistent(s) && id !in s.indexes ==> Destroy(s, id) == s
  {
  }

  /** A second create of the same id replaces the first completely. */
  lemma CreateOverwrites(s: State, id: Id, first: Index, second: Index)
    ensures Create(Create(s, id, first), id, second) == Create(s, id, second)
  {
  }

  /** A create and a destroy on different ids commute. */
  lemma StructuralCallsCommute(s: State, a: Id, b: Id, index: Index)
    requires a != b
    ensures Destroy(Create(s, a, index), b) == Create(Destroy(s, b), a, index)
  {
  }

  /** Two creates on different ids commute. */
  lemma CreatesCommute(s: State, a: Id, b: Id, first: Index, second: Index)
    requires a != b
    ensures Create(Create(s, a, first), b, second) == Create(Create(s, b, second), a, first)
  {
    assert s.indexes[a := first][b := second] == s.indexes[b := second][a := first];
  }

  /** Two destroys on different ids commute. */
  lemma DestroysCommute(s: State, a: Id, b: Id)
    requires a != b
    ensures Destroy(Destroy(s, a), b) == Destroy(Destroy(s, b), a)
  {
    assert s.indexes - {a} - {b} == s.indexes - {b} - {a};
  }

  datatype Call = CreateCall(id: Id, index: Index) | DestroyCall(id: Id)

  function Step(s: State, c: Call): State {
    match c
    case CreateCall(id, index) => Create(s, id, index)
    case DestroyCall(id) => Destroy(s, id)
  }

  /** The state after the structural calls `calls`, in order. */
  function Replay(s: State, calls: seq<Call>): State
    decreases |calls|
  {
    if calls == [] then s else Step(Replay(s, calls[..|calls| - 1]), calls[|calls| - 1])
  }

  /** The last of `calls` that names `id`, if any. */
  function LastCallOn(calls: seq<Call>, id: Id): Option<Call>
    decreases |calls|
  {
    if calls == [] then None
    else if calls[|calls| - 1].id == id then Some(calls[|calls| - 1])
    else LastCallOn(calls[..|calls| - 1], id)
  }

  /**
   * After any series of structural calls the three pieces of state agree, and
   * a read of `id` sees exactly the last structural call naming it: the handle
   * that call created (with its options), or Index404 after a destroy.
   */
  lemma {:induction false} ReplayReadsLastCall(s: State, calls: seq<Call>, id: Id)
    requires Consistent(s)
    ensures Consistent(Replay(s, calls))
    ensures Lookup(Replay(s, calls), id) ==
              match LastCallOn(calls, id)
              case None => Lookup(s, id)
              case Some(CreateCall(_, index)) => Ok(index)
              case Some(DestroyCall(_)) => Err(Index404)
    ensures Config(Replay(s, calls), id) ==
              match LastCallOn(calls, id)
              case None => Config(s, id)
              case Some(CreateCall(_, index)) => Ok(index.options)
              case Some(DestroyCall(_)) => Err(Index404)
    decreases |calls|
  {
    if calls != [] {
      ReplayReadsLastCall(s, calls[..|calls| - 1], id);
    }
  }

  /**
   * What storage holds at a crash point: the index directories that exist and
   * the mapping the crash-safe record holds.
   */
  datatype Disk = Disk(dirs: set<Id>, record: map<Id, Options>)

  /** Reopening from `d` finds a directory for every identifier the record names. */
  predicate Recoverable(d: Disk) {
    d.record.Keys <= d.dirs
  }

  /** The orphan reaper: keeps only the directories the record claims. */
  function Reap(dirs: set<Id>, claimed: set<Id>): (r: set<Id>)
    ensures r <= claimed && r <= dirs
    ensures forall id :: id in dirs && id in claimed ==> id in r
  {
    dirs * claimed
  }

  /**
   * The crash points of a create: the index directory exists before the record
   * that names it is written. Starting from a recoverable disk, a crash at any
   * of them is recoverable, and the record is the old one or the new one.
   */
  function CreateCrashPoints(d: Disk, id: Id, options: Options): (points: seq<Disk>)
    requires Recoverable(d)
    ensures |points| == 2
    ensures forall i :: 0 <= i < |points| ==> Recoverable(points[i])
    ensures forall i :: 0 <= i < |points| ==> points[i].record in {d.record, d.record[id := options]}
    ensures points[1].record == d.record[id := options] && points[1].dirs == d.dirs + {id}
  {
    [Disk(d.dirs + {id}, d.record), Disk(d.dirs + {id}, d.record[id := options])]
  }

  /** Writing the record first would expose a crash point naming an index with no directory. */
  lemma RecordFirstIsUnrecoverable(d: Disk, id: Id, options: Options)
    requires id !in d.dirs
    ensures !Recoverable(Disk(d.dirs, d.record[id := options]))
  {
  }
}
