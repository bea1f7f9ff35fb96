/**
 * The index handle the worker hosts, reduced to the capabilities the worker
 * uses: its options, a momentary view, search, insert (which can report an
 * outdated view), refresh, delete, flush and the sealed count. The index's own
 * data structure is abstracted to the list of stored entries.
 */
module IndexHandle {
  import opened Prelude

  /** One stored vector together with the pointer it was inserted under. */
  datatype Entry = Entry(vector: Vector, pointer: Pointer)

  datatype SearchError = SearchInvalidVector(vector: Vector)

  datatype InsertError = InsertInvalidVector(vector: Vector) | OutdatedView

  datatype Outcome<T, E> = Success(value: T) | Failure(error: E)

  /** The shape check an index applies to query and insert vectors. */
  predicate Accepts(options: Options, vector: Vector) {
    |vector| == options.dims
  }

  /** The set of pointers stored in `entries`. */
  function Pointers(entries: seq<Entry>): set<Pointer> {
    set i | 0 <= i < |entries| :: entries[i].pointer
  }

  /** Whether a search may return `e`: it is not deleted and the filter keeps it. */
  predicate Admitted(e: Entry, deleted: set<Pointer>, keep: Pointer -> bool) {
    e.pointer !in deleted && keep(e.pointer)
  }

  /** The pointers of `entries` that are not deleted and that `keep` admits, in storage order. */
  function Visible(entries: seq<Entry>, deleted: set<Pointer>, keep: Pointer -> bool): (r: seq<Pointer>)
    ensures |r| <= |entries|
    ensures forall p :: p in r ==> p in Pointers(entries) && p !in deleted && keep(p)
    ensures forall i :: 0 <= i < |entries| && Admitted(entries[i], deleted, keep) ==> entries[i].pointer in r
  {
    if entries == [] then []
    else
      var rest := Visible(entries[1..], deleted, keep);
      assert forall i :: 1 <= i < |entries| ==> entries[i] == entries[1..][i - 1];
      if Admitted(entries[0], deleted, keep) then [entries[0].pointer] + rest else rest
  }

  /** What an index directory durably holds: its entries, its deletions and how many entries are sealed. */
  datatype Persisted = Persisted(entries: seq<Entry>, deleted: set<Pointer>, sealed: nat)

  /** A momentary read capability on an index: what it held at the version the view was taken at. */
  datatype IndexView = IndexView(options: Options, version: nat, entries: seq<Entry>, deleted: set<Pointer>, sealed: nat)
  {
    /**
     * Up to `k` visible pointers admitted by `keep`; ranking by distance to
     * `query` is not modelled, so the candidates come in storage order.
     */
    function Search(k: nat, query: Vector, keep: Pointer -> bool): (r: Outcome<seq<Pointer>, SearchError>)
      ensures r.Failure? <==> !Accepts(options, query)
      ensures r.Failure? ==> r.error == SearchInvalidVector(query)
      ensures r.Success? ==> |r.value| <= k
      ensures r.Success? ==> forall p :: p in r.value ==> p in Pointers(entries) && p !in deleted && keep(p)
      ensures r.Success? && k >= |entries| ==>
                forall i :: 0 <= i < |entries| && Admitted(entries[i], deleted, keep) ==> entries[i].pointer in r.value
    {
      if !Accepts(options, query) then Failure(SearchInvalidVector(query))
      else
        var candidates := Visible(entries, deleted, keep);
        Success(if k < |candidates| then candidates[..k] else candidates)
    }
  }

  class Index {
    const options: Options
    /** Every vector inserted so far, in insertion order. */
    var entries: seq<Entry>
    /** Pointers marked deleted (logical delete). */
    var deleted: set<Pointer>
    /** How many entries are sealed into immutable, fully indexed segments. */
    var sealed: nat
    /** How many entries a flush has made durable. */
    var flushed: nat
    /** The internal version this handle has adopted, and the newest one a rebuild has published. */
    var version: nat
    var latest: nat

    ghost predicate Valid()
      reads this
    {
      version <= latest && sealed <= |entries| && flushed <= |entries|
    }

    /** A new, empty index with the given options. */
    constructor Create(options: Options)
      ensures Valid()
      ensures this.options == options && entries == [] && deleted == {}
      ensures sealed == 0 && flushed == 0 && version == latest
    {
      this.options := options;
      entries, deleted := [], {};
      sealed, flushed := 0, 0;
      version, latest := 0, 0;
    }

    /** Reopens an index whose directory durably holds `stored`. */
    constructor Open(options: Options, stored: Persisted)
      requires stored.sealed <= |stored.entries|
      ensures Valid()
      ensures this.options == options && entries == stored.entries && deleted == stored.deleted
      ensures sealed == stored.sealed && flushed == |stored.entries| && version == latest
    {
      this.options := options;
      entries, deleted := stored.entries, stored.deleted;
      sealed, flushed := stored.sealed, |stored.entries|;
      version, latest := 0, 0;
    }

    /**
     * A momentary view: it carries the handle's options and adopted version,
     * which is never newer than the latest one, and sees the handle's current
     * entries, deletions and sealed count.
     */
    function View(): (v: IndexView)
      requires Valid()
      reads this
      ensures v.options == options && v.version <= latest && v.version == version
      ensures v.entries == entries && v.deleted == deleted
      ensures v.sealed == sealed && v.sealed <= |v.entries|
    {
      IndexView(options, version, entries, deleted, sealed)
    }

    /** Adopts the newest internal version after an outdated-view report. */
    method Refresh()
      requires Valid()
      modifies this
      ensures Valid()
      ensures version == latest == old(latest)
      ensures entries == old(entries) && deleted == old(deleted)
      ensures sealed == old(sealed) && flushed == old(flushed)
    {
      version := latest;
    }

    /**
     * Inserts through view `v`: a vector of the wrong shape is refused; a view
     * older than the newest published version is reported outdated and nothing
     * is stored; otherwise the entry is appended.
     */
    method Insert(v: IndexView, vector: Vector, pointer: Pointer) returns (r: Outcome<(), InsertError>)
      requires Valid()
      modifies this
      ensures Valid()
      ensures !Accepts(options, vector) ==> r == Failure(InsertInvalidVector(vector))
      ensures Accepts(options, vector) && v.version < latest ==> r == Failure(OutdatedView)
      ensures Accepts(options, vector) && v.version >= latest ==> r == Success(())
      ensures entries == if r.Success? then old(entries) + [Entry(vector, pointer)] else old(entries)
      ensures deleted == old(deleted) && sealed == old(sealed) && flushed == old(flushed)
      ensures version == old(version) && latest == old(latest)
    {
      if !Accepts(options, vector) {
        r := Failure(InsertInvalidVector(vector));
      } else if v.version < latest {
        r := Failure(OutdatedView);
      } else {
        entries := entries + [Entry(vector, pointer)];
        r := Success(());
      }
    }

    /** Marks every stored pointer that `doomed` selects as deleted. */
    method Delete(doomed: Pointer -> bool)
      requires Valid()
      modifies this
      ensures Valid()
      ensures deleted == old(deleted) + set p | p in Pointers(entries) && doomed(p)
      ensures entries == old(entries) && sealed == old(sealed) && flushed == old(flushed)
      ensures version == old(version) && latest == old(latest)
    {
      deleted := deleted + set p | p in Pointers(entries) && doomed(p);
    }

    /** Makes every entry durable. */
    method Flush()
      requires Valid()
      modifies this
      ensures Valid()
      ensures flushed == |entries|
      ensures entries == old(entries) && deleted == old(deleted) && sealed == old(sealed)
      ensures version == old(version) && latest == old(latest)
    {
      flushed := |entries|;
    }

    /**
     * A background rebuild: seals every entry and publishes a newer internal
     * version, which makes views taken before it outdated for inserts.
     */
    method Rebuild()
      requires Valid()
      modifies this
      ensures Valid()
      ensures sealed == |entries| && latest == old(latest) + 1
      ensures entries == old(entries) && deleted == old(deleted) && flushed == old(flushed)
      ensures version == old(version)
    {
      sealed := |entries|;
      latest := latest + 1;
    }
  }
}
