/** The persistent record store (hooks/useIndexedDB.ts): one object store
    named "files" in the database "Stork23FileDB", keyed by an
    auto-increment integer, with add, get, getAll, delete and clear. */
module IndexedDB {
  import opened Types
  import opened ContentClassifier

  const DbVersion := 1

  /** Key generator (section 2.11 of the W3C Indexed Database API 3.0):
      the current number starts at 1, each generated key is the current
      number, which then grows by one; once it exceeds 2^53 every further
      key generation fails with a ConstraintError. */
  const FirstGeneratedKey := 1
  const MaxGeneratedKey := 0x20_0000_0000_0000

  datatype StoreError =
    | NotInitialized   // no database handle: getStore throws
    | ConstraintError  // the key generator is exhausted
    | WriteRefused     // the add request itself fails (request.onerror)

  datatype Result<T> = Ok(value: T) | Err(error: StoreError)

  /** Whether the add request for a record into a table with the given
      contents fails with an error event on the request itself. */
  type WritePolicy = (map<int, Record>, Record) -> bool

  /** The metadata addFile is given: a File or a synthetic
      `{name, type, size}` object. Its `size` is not what is stored. */
  datatype FileMeta = FileMeta(name: string, mimeType: string, size: int)

  /** The record literal addFile builds before asking for a transaction. */
  function MakeFileData(meta: FileMeta, buffer: seq<byte>, decode: Decoder): (fd: FileData)
    ensures fd.name == meta.name && fd.mimeType == meta.mimeType
    ensures fd.size == |buffer| && fd.data == buffer
    ensures (fd.textContent == Some(decode(buffer))) <==> 20 * multiset(decode(buffer))['\0'] < |decode(buffer)|
    ensures fd.textContent != Some(decode(buffer)) ==> fd.textContent == None
  {
    FileData(meta.name, meta.mimeType, |buffer|, buffer, Classify(decode(buffer)))
  }

  /** The observable state of a store, as a value. */
  datatype StoreState = StoreState(ready: bool, files: map<int, Record>, nextId: int)

  /** Every key was produced by the key generator, each record sits under
      its own id, and each record's size is its byte length. */
  ghost predicate WellFormed(s: StoreState)
  {
    && FirstGeneratedKey <= s.nextId
    && forall k :: k in s.files ==>
         && FirstGeneratedKey <= k < s.nextId
         && s.files[k].id == k
         && s.files[k].size == |s.files[k].data|
  }

  /** The outcome of add: the id assigned, or why the write failed. */
  function AddResult(s: StoreState, fd: FileData, refuses: WritePolicy): Result<int>
  {
    if !s.ready then Err(NotInitialized)
    else if s.nextId > MaxGeneratedKey then Err(ConstraintError)
    else if refuses(s.files, WithId(fd, s.nextId)) then Err(WriteRefused)
    else Ok(s.nextId)
  }

  /** The store after add; a failed add changes nothing, the key generator
      included (it is reverted along with the failed write). */
  function AfterAdd(s: StoreState, fd: FileData, refuses: WritePolicy): StoreState
  {
    match AddResult(s, fd, refuses)
    case Ok(id) => StoreState(s.ready, s.files[id := WithId(fd, id)], id + 1)
    case Err(_) => s
  }

  /** add on a ready store yields a fresh id, above every id handed out
      before, and the new table is the old one plus that single entry. */
  lemma AddAssignsFreshId(s: StoreState, fd: FileData, refuses: WritePolicy)
    requires WellFormed(s) && fd.size == |fd.data|
    ensures WellFormed(AfterAdd(s, fd, refuses))
    ensures AfterAdd(s, fd, refuses).ready == s.ready
    ensures AddResult(s, fd, refuses).Ok? ==>
              var id := AddResult(s, fd, refuses).value;
              && id !in s.files
              && (forall k :: k in s.files ==> k < id)
              && AfterAdd(s, fd, refuses).files == s.files[id := WithId(fd, id)]
              && AfterAdd(s, fd, refuses).nextId > id >= s.nextId
    ensures AddResult(s, fd, refuses).Err? ==> AfterAdd(s, fd, refuses) == s
    ensures !s.ready ==> AddResult(s, fd, refuses) == Err(NotInitialized)
  {
  }

  /** getAll: the records whose keys lie in [lo, hi), in ascending key order
      (an object store keeps its records sorted by key). */
  function InKeyOrder(m: map<int, Record>, lo: int, hi: int): seq<Record>
    decreases hi - lo
  {
    if hi <= lo then []
    else (if lo in m then [m[lo]] else []) + InKeyOrder(m, lo + 1, hi)
  }

  function Listing(s: StoreState): seq<Record>
  {
    InKeyOrder(s.files, FirstGeneratedKey, s.nextId)
  }

  lemma {:induction false} InKeyOrderExact(m: map<int, Record>, lo: int, hi: int)
    requires forall k :: k in m ==> m[k].id == k
    ensures forall i :: 0 <= i < |InKeyOrder(m, lo, hi)| ==>
              var r := InKeyOrder(m, lo, hi)[i]; lo <= r.id < hi && r.id in m && m[r.id] == r
    ensures forall i, j :: 0 <= i < j < |InKeyOrder(m, lo, hi)| ==>
              InKeyOrder(m, lo, hi)[i].id < InKeyOrder(m, lo, hi)[j].id
    ensures forall k :: lo <= k < hi && k in m ==> m[k] in InKeyOrder(m, lo, hi)
    decreases hi - lo
  {
    if lo < hi {
      InKeyOrderExact(m, lo + 1, hi);
    }
  }

  /** The listing holds every stored record, only stored records, each
      once, in strictly ascending id order. */
  lemma ListingExact(s: StoreState)
    requires WellFormed(s)
    ensures forall k :: k in s.files ==> s.files[k] in Listing(s)
    ensures forall i :: 0 <= i < |Listing(s)| ==>
              Listing(s)[i].id in s.files && s.files[Listing(s)[i].id] == Listing(s)[i]
    ensures forall i, j :: 0 <= i < j < |Listing(s)| ==> Listing(s)[i].id < Listing(s)[j].id
  {
    InKeyOrderExact(s.files, FirstGeneratedKey, s.nextId);
  }

  /** An empty table lists as the empty sequence, whatever its key range. */
  lemma {:induction false} EmptyListing(lo: int, hi: int)
    ensures InKeyOrder(map[], lo, hi) == []
    decreases hi - lo
  {
    if lo < hi {
      EmptyListing(lo + 1, hi);
    }
  }

  /** The persistent database together with this session's handle. */
  class RecordStore {
    var version: int                  // 0 while the database does not exist
    var created: bool                 // objectStoreNames contains "files"
    var files: map<int, Record>
    var nextId: int                   // the key generator's current number
    var ready: bool                   // a database handle is held

    ghost predicate Valid()
      reads this
    {
      && WellFormed(State())
      && (!created ==> files == map[] && nextId == FirstGeneratedKey)
      && (version >= DbVersion ==> created)
      && (ready ==> created && version == DbVersion)
    }

    function State(): StoreState
      reads this
    {
      StoreState(ready, files, nextId)
    }

    /** A session over a database as it was left on disk, before open. */
    constructor (version: int, created: bool, files: map<int, Record>, nextId: int)
      requires WellFormed(StoreState(false, files, nextId))
      requires !created ==> files == map[] && nextId == FirstGeneratedKey
      requires version >= DbVersion ==> created
      ensures Valid() && !ready
      ensures this.version == version && this.created == created
      ensures this.files == files && this.nextId == nextId
    {
      this.version := version;
      this.created := created;
      this.files := files;
      this.nextId := nextId;
      this.ready := false;
    }

    /** onupgradeneeded: create the object store only when it is absent.
        Only `created` is in the frame and it ends true, so running the
        upgrade again changes nothing. */
    method UpgradeSchema()
      requires Valid()
      modifies this`created
      ensures Valid() && created
    {
      if !created {
        created := true;
      }
    }

    /** indexedDB.open("Stork23FileDB", DbVersion); `denied` is the
        environment refusing persistent storage. A database already above
        DbVersion cannot be opened at DbVersion (VersionError). Both
        failures reach onerror, which leaves the session without a handle. */
    method Open(denied: bool)
      requires Valid()
      modifies this
      ensures Valid()
      ensures ready <==> !denied && old(version) <= DbVersion
      ensures files == old(files) && nextId == old(nextId)
      ensures !ready ==> version == old(version) && created == old(created)
      ensures ready ==> created && version == DbVersion
    {
      if denied || version > DbVersion {
        ready := false;
        return;
      }
      if version < DbVersion {
        UpgradeSchema();
        version := DbVersion;
      }
      ready := true;
    }

    /** addFile: classify the buffer, build the record and add it under the
        next generated key. */
    method Add(meta: FileMeta, buffer: seq<byte>, decode: Decoder, refuses: WritePolicy)
      returns (r: Result<int>)
      requires Valid()
      modifies this`files, this`nextId
      ensures Valid()
      ensures r == AddResult(old(State()), MakeFileData(meta, buffer, decode), refuses)
      ensures State() == AfterAdd(old(State()), MakeFileData(meta, buffer, decode), refuses)
      ensures !ready ==> r == Err(NotInitialized)
      ensures r.Ok? ==> r.value !in old(files) && forall k :: k in old(files) ==> k < r.value
      ensures r.Ok? ==> files == old(files)[r.value := WithId(MakeFileData(meta, buffer, decode), r.value)]
      ensures r.Ok? ==> nextId > r.value >= old(nextId)
      ensures r.Err? ==> files == old(files) && nextId == old(nextId)
    {
      var fd := MakeFileData(meta, buffer, decode);
      AddAssignsFreshId(State(), fd, refuses);
      if !ready {
        return Err(NotInitialized);
      }
      if nextId > MaxGeneratedKey {
        return Err(ConstraintError);
      }
      var record := WithId(fd, nextId);
      if refuses(files, record) {
        return Err(WriteRefused);
      }
      files := files[nextId := record];
      r := Ok(nextId);
      nextId := nextId + 1;
    }

    /** getFile: the stored record, or nothing when the id is absent. */
    method Get(id: int) returns (r: Result<Option<Record>>)
      requires Valid()
      ensures r.Ok? <==> ready
      ensures r.Err? ==> r.error == NotInitialized
      ensures ready ==> r == Ok(if id in files then Some(files[id]) else None)
      ensures r.Ok? && r.value.Some? ==> r.value.value.id == id
    {
      if !ready {
        return Err(NotInitialized);
      }
      if id in files {
        r := Ok(Some(files[id]));
      } else {
        r := Ok(None);
      }
    }

    /** getAllFiles: every stored record, in ascending id order. */
    method GetAll() returns (r: Result<seq<Record>>)
      requires Valid()
      ensures r.Ok? <==> ready
      ensures r.Err? ==> r.error == NotInitialized
      ensures ready ==> r == Ok(Listing(State()))
      ensures r.Ok? ==> forall k :: k in files ==> files[k] in r.value
      ensures r.Ok? ==> forall i :: 0 <= i < |r.value| ==>
                r.value[i].id in files && files[r.value[i].id] == r.value[i]
      ensures r.Ok? ==> forall i, j :: 0 <= i < j < |r.value| ==> r.value[i].id < r.value[j].id
    {
      if !ready {
        return Err(NotInitialized);
      }
      ListingExact(State());
      r := Ok(Listing(State()));
    }

    /** deleteFile: removing an absent id succeeds and changes nothing. */
    method Delete(id: int) returns (r: Result<()>)
      requires Valid()
      modifies this`files
      ensures Valid()
      ensures r.Ok? <==> ready
      ensures r.Err? ==> r.error == NotInitialized
      ensures ready ==> files == old(files) - {id}
      ensures !ready ==> files == old(files)
      ensures id !in old(files) ==> files == old(files)
    {
      if !ready {
        return Err(NotInitialized);
      }
      files := files - {id};
      r := Ok(());
    }

    /** clearDB: all records go; the key generator is not reset. */
    method Clear() returns (r: Result<()>)
      requires Valid()
      modifies this`files
      ensures Valid()
      ensures r.Ok? <==> ready
      ensures r.Err? ==> r.error == NotInitialized
      ensures ready ==> files == map[] && Listing(State()) == []
      ensures !ready ==> files == old(files)
    {
      if !ready {
        return Err(NotInitialized);
      }
      files := map[];
      EmptyListing(FirstGeneratedKey, nextId);
      r := Ok(());
    }
  }

  /** Opening an already opened database again changes nothing. */
  method ReopenChangesNothing(s: RecordStore)
    requires s.Valid() && s.ready
    modifies s
    ensures s.Valid() && s.State() == old(s.State())
  {
    s.Open(false);
  }

  /** A deleted id is never handed out again, and get after delete finds
      nothing. */
  method NoReuseAfterDelete(s: RecordStore, meta: FileMeta, buffer: seq<byte>, decode: Decoder,
                            refuses: WritePolicy)
    returns (first: Result<int>, again: Result<Option<Record>>, second: Result<int>)
    requires s.Valid()
    modifies s
    ensures s.Valid()
    ensures first.Ok? ==> again == Ok(None)
    ensures first.Ok? && second.Ok? ==> second.value > first.value
  {
    first := s.Add(meta, buffer, decode, refuses);
    if first.Ok? {
      var deleted := s.Delete(first.value);
    }
    again := s.Get(if first.Ok? then first.value else 0);
    second := s.Add(meta, buffer, decode, refuses);
  }
}
