/** What one import batch does to the store (App.tsx, handleFileImport),
    stated on values. Files are processed one after another; a `.zip`
    name sends the file through the archive expander, whose non-directory
    entries are added one by one; any other file is added as it is. A
    failure aborts the rest of the file it happened in, never the batch. */
module ImportPipeline {
  import opened Types
  import opened ContentClassifier
  import opened IndexedDB

  const ArchiveSuffix := ".zip"
  const ArchiveEntryType := "application/octet-stream"

  /** A file from the picker: the File's name, type and size, and the bytes
      it reads as. */
  datatype InputFile = InputFile(name: string, mimeType: string, size: int, bytes: seq<byte>)

  /** One entry of a decoded archive. `content` is None when extracting it
      fails. */
  datatype ZipEntry = ZipEntry(name: string, isDir: bool, content: Option<seq<byte>>)

  /** The archive decoder: None when the bundle cannot be parsed, otherwise
      its entries in enumeration order. */
  type Unzipper = seq<byte> -> Option<seq<ZipEntry>>

  /** Everything the import depends on outside the store. */
  datatype Env = Env(decode: Decoder, unzip: Unzipper, refuses: WritePolicy)

  function LowerChar(c: char): char
  {
    if 'A' <= c <= 'Z' then (c as int + 32) as char else c
  }

  function ToLower(s: string): (r: string)
    ensures |r| == |s|
    ensures forall i :: 0 <= i < |s| ==> r[i] == LowerChar(s[i])
  {
    if s == [] then [] else [LowerChar(s[0])] + ToLower(s[1..])
  }

  predicate EndsWith(s: string, suffix: string)
  {
    |suffix| <= |s| && s[|s| - |suffix|..] == suffix
  }

  /** `file.name.toLowerCase().endsWith('.zip')` */
  predicate IsArchiveName(name: string)
  {
    EndsWith(ToLower(name), ArchiveSuffix)
  }

  /** A name is an archive name exactly when its last four characters are
      '.', 'z', 'i', 'p' in either case. */
  lemma ArchiveNameIffZipSuffix(name: string)
    ensures IsArchiveName(name) <==>
              && |name| >= 4
              && name[|name| - 4] == '.'
              && name[|name| - 3] in "zZ"
              && name[|name| - 2] in "iI"
              && name[|name| - 1] in "pP"
  {
    var low := ToLower(name);
    var n := |name|;
    if n >= 4 {
      var tail := low[n - 4..];
      assert tail[0] == LowerChar(name[n - 4]) && tail[1] == LowerChar(name[n - 3]);
      assert tail[2] == LowerChar(name[n - 2]) && tail[3] == LowerChar(name[n - 1]);
      if tail == ArchiveSuffix {
        assert name[n - 4] == '.';
      }
    }
  }

  /** The result of processing part of the input: the new store, and
      whether that part went through without an error. */
  datatype Progress = Progress(state: StoreState, ok: bool)

  /** The synthetic metadata an archive entry is added with. */
  function EntryMeta(name: string, bytes: seq<byte>): FileMeta
  {
    FileMeta(name, ArchiveEntryType, |bytes|)
  }

  /** The inner loop over an archive's entries: directories are skipped,
      the first entry that fails to extract or to be added stops the loop. */
  function AddEntries(s: StoreState, es: seq<ZipEntry>, decode: Decoder, refuses: WritePolicy): Progress
    decreases |es|
  {
    if es == [] then Progress(s, true)
    else if es[0].isDir then AddEntries(s, es[1..], decode, refuses)
    else
      match es[0].content
      case None => Progress(s, false)
      case Some(bytes) =>
        var fd := MakeFileData(EntryMeta(es[0].name, bytes), bytes, decode);
        if AddResult(s, fd, refuses).Err? then Progress(s, false)
        else AddEntries(AfterAdd(s, fd, refuses), es[1..], decode, refuses)
  }

  /** The body of the try block for one input file. */
  function ImportFile(s: StoreState, f: InputFile, env: Env): Progress
  {
    if IsArchiveName(f.name) then
      match env.unzip(f.bytes)
      case None => Progress(s, false)
      case Some(es) => AddEntries(s, es, env.decode, env.refuses)
    else
      var fd := MakeFileData(FileMeta(f.name, f.mimeType, f.size), f.bytes, env.decode);
      Progress(AfterAdd(s, fd, env.refuses), AddResult(s, fd, env.refuses).Ok?)
  }

  /** The store after a batch, and the names of the files whose import
      failed, in order (one error alert each). */
  datatype Report = Report(state: StoreState, failed: seq<string>)

  function ImportBatch(s: StoreState, fs: seq<InputFile>, env: Env): Report
    decreases |fs|
  {
    if fs == [] then Report(s, [])
    else
      var before := ImportBatch(s, fs[..|fs| - 1], env);
      var last := fs[|fs| - 1];
      var p := ImportFile(before.state, last, env);
      Report(p.state, before.failed + (if p.ok then [] else [last.name]))
  }

  /** `t` is `s` with records added under fresh keys: nothing stored is
      removed or changed, and the key generator only moves forward. */
  ghost predicate Extends(s: StoreState, t: StoreState)
  {
    && t.ready == s.ready
    && s.nextId <= t.nextId
    && (forall k :: k in s.files ==> k in t.files && t.files[k] == s.files[k])
    && (forall k :: k in t.files && k !in s.files ==> s.nextId <= k < t.nextId)
  }

  lemma AddExtends(s: StoreState, fd: FileData, refuses: WritePolicy)
    requires WellFormed(s) && fd.size == |fd.data|
    ensures WellFormed(AfterAdd(s, fd, refuses)) && Extends(s, AfterAdd(s, fd, refuses))
  {
    AddAssignsFreshId(s, fd, refuses);
  }

  lemma {:induction false} AddEntriesExtends(s: StoreState, es: seq<ZipEntry>, decode: Decoder,
                                             refuses: WritePolicy)
    requires WellFormed(s)
    ensures WellFormed(AddEntries(s, es, decode, refuses).state)
    ensures Extends(s, AddEntries(s, es, decode, refuses).state)
    decreases |es|
  {
    if es != [] {
      if es[0].isDir {
        AddEntriesExtends(s, es[1..], decode, refuses);
      } else if es[0].content.Some? {
        var bytes := es[0].content.value;
        var fd := MakeFileData(EntryMeta(es[0].name, bytes), bytes, decode);
        if AddResult(s, fd, refuses).Ok? {
          var s' := AfterAdd(s, fd, refuses);
          AddExtends(s, fd, refuses);
          AddEntriesExtends(s', es[1..], decode, refuses);
        }
      }
    }
  }

  lemma ImportFileExtends(s: StoreState, f: InputFile, env: Env)
    requires WellFormed(s)
    ensures WellFormed(ImportFile(s, f, env).state) && Extends(s, ImportFile(s, f, env).state)
  {
    if IsArchiveName(f.name) {
      if env.unzip(f.bytes).Some? {
        AddEntriesExtends(s, env.unzip(f.bytes).value, env.decode, env.refuses);
      }
    } else {
      AddExtends(s, MakeFileData(FileMeta(f.name, f.mimeType, f.size), f.bytes, env.decode), env.refuses);
    }
  }

  /** A batch only ever adds: every record stored before it is still there,
      unchanged, and every record it adds has a key never used before. */
  lemma {:induction false} ImportBatchExtends(s: StoreState, fs: seq<InputFile>, env: Env)
    requires WellFormed(s)
    ensures WellFormed(ImportBatch(s, fs, env).state) && Extends(s, ImportBatch(s, fs, env).state)
    decreases |fs|
  {
    if fs != [] {
      var before := ImportBatch(s, fs[..|fs| - 1], env).state;
      ImportBatchExtends(s, fs[..|fs| - 1], env);
      ImportFileExtends(before, fs[|fs| - 1], env);
    }
  }

  /** Directory entries make no difference to what an archive adds. */
  function NonDirectories(es: seq<ZipEntry>): (r: seq<ZipEntry>)
    ensures |r| <= |es|
  {
    if es == [] then []
    else (if es[0].isDir then [] else [es[0]]) + NonDirectories(es[1..])
  }

  /** The filtered entries are exactly the non-directory entries. */
  lemma {:induction false} NonDirectoriesMembers(es: seq<ZipEntry>, e: ZipEntry)
    ensures e in NonDirectories(es) <==> e in es && !e.isDir
    decreases |es|
  {
    if es != [] {
      assert es == [es[0]] + es[1..];
      NonDirectoriesMembers(es[1..], e);
    }
  }

  /** Each non-directory entry is kept as often as it occurs, and no
      directory entry is kept. */
  lemma {:induction false} NonDirectoriesCount(es: seq<ZipEntry>, e: ZipEntry)
    ensures multiset(NonDirectories(es))[e] == if e.isDir then 0 else multiset(es)[e]
    decreases |es|
  {
    if es != [] {
      assert es == [es[0]] + es[1..];
      NonDirectoriesCount(es[1..], e);
    }
  }

  /** Filtering keeps order: a concatenation filters piecewise. */
  lemma {:induction false} NonDirectoriesAppend(a: seq<ZipEntry>, b: seq<ZipEntry>)
    ensures NonDirectories(a + b) == NonDirectories(a) + NonDirectories(b)
    decreases |a|
  {
    if a == [] {
      assert a + b == b;
    } else {
      var h := if a[0].isDir then [] else [a[0]];
      assert (a + b)[0] == a[0] && (a + b)[1..] == a[1..] + b;
      assert NonDirectories(a + b) == h + NonDirectories(a[1..] + b);
      NonDirectoriesAppend(a[1..], b);
      assert NonDirectories(a) == h + NonDirectories(a[1..]);
    }
  }

  /** A single entry is kept exactly when it is not a directory. */
  lemma NonDirectoriesOne(e: ZipEntry)
    ensures NonDirectories([e]) == if e.isDir then [] else [e]
  {
    assert [e][1..] == [];
  }

  lemma {:induction false} DirectoriesAddNothing(s: StoreState, es: seq<ZipEntry>, decode: Decoder,
                                                 refuses: WritePolicy)
    ensures AddEntries(s, es, decode, refuses) == AddEntries(s, NonDirectories(es), decode, refuses)
    decreases |es|
  {
    if es != [] {
      var rest := NonDirectories(es[1..]);
      if es[0].isDir {
        assert NonDirectories(es) == rest;
        DirectoriesAddNothing(s, es[1..], decode, refuses);
      } else {
        assert NonDirectories(es) == [es[0]] + rest;
        assert (([es[0]] + rest)[1..]) == rest;
        match es[0].content
        case None =>
        case Some(bytes) =>
          var fd := MakeFileData(EntryMeta(es[0].name, bytes), bytes, decode);
          DirectoriesAddNothing(AfterAdd(s, fd, refuses), es[1..], decode, refuses);
      }
    }
  }

  /** Processing the entries `a + b` is processing `a` and then, only if
      that went through, `b` from where `a` left the store. */
  lemma {:induction false} AddEntriesSplit(s: StoreState, a: seq<ZipEntry>, b: seq<ZipEntry>,
                                           decode: Decoder, refuses: WritePolicy)
    ensures AddEntries(s, a + b, decode, refuses) ==
              var p := AddEntries(s, a, decode, refuses);
              if p.ok then AddEntries(p.state, b, decode, refuses) else p
    decreases |a|
  {
    if a == [] {
      assert a + b == b;
    } else {
      assert (a + b)[0] == a[0];
      assert (a + b)[1..] == a[1..] + b;
      if a[0].isDir {
        AddEntriesSplit(s, a[1..], b, decode, refuses);
      } else {
        match a[0].content
        case None =>
        case Some(bytes) =>
          var fd := MakeFileData(EntryMeta(a[0].name, bytes), bytes, decode);
          if AddResult(s, fd, refuses).Ok? {
            AddEntriesSplit(AfterAdd(s, fd, refuses), a[1..], b, decode, refuses);
          }
      }
    }
  }

  /** An entry that cannot be extracted aborts its archive: the entries
      before it stay added, none after it is added, and the file fails. */
  lemma FailedEntryAbortsArchive(s: StoreState, a: seq<ZipEntry>, e: ZipEntry, b: seq<ZipEntry>,
                                 decode: Decoder, refuses: WritePolicy)
    requires !e.isDir && e.content.None?
    ensures AddEntries(s, a + [e] + b, decode, refuses) ==
              Progress(AddEntries(s, a, decode, refuses).state, false)
  {
    AddEntriesSplit(s, a, [e] + b, decode, refuses);
    assert a + [e] + b == a + ([e] + b);
  }

  /** When nothing fails, an archive of `n` file entries adds `n` records
      under the next `n` keys, each named after its entry, typed
      application/octet-stream, sized by its extracted bytes. */
  lemma {:induction false} ArchiveEntriesAllAdded(s: StoreState, es: seq<ZipEntry>, decode: Decoder,
                                                  refuses: WritePolicy)
    requires WellFormed(s) && s.ready && s.nextId + |es| <= MaxGeneratedKey + 1
    requires forall i :: 0 <= i < |es| ==> !es[i].isDir && es[i].content.Some?
    requires forall m, r :: !refuses(m, r)
    ensures AddEntries(s, es, decode, refuses).ok
    ensures AddEntries(s, es, decode, refuses).state.nextId == s.nextId + |es|
    ensures forall k :: k in AddEntries(s, es, decode, refuses).state.files <==>
              k in s.files || s.nextId <= k < s.nextId + |es|
    ensures forall k :: k in s.files ==> AddEntries(s, es, decode, refuses).state.files[k] == s.files[k]
    ensures forall i :: 0 <= i < |es| ==>
              var bytes := es[i].content.value;
              AddEntries(s, es, decode, refuses).state.files[s.nextId + i] ==
                Record(s.nextId + i, es[i].name, ArchiveEntryType, |bytes|, bytes,
                       Classify(decode(bytes)))
    decreases |es|
  {
    if es != [] {
      var bytes := es[0].content.value;
      var fd := MakeFileData(EntryMeta(es[0].name, bytes), bytes, decode);
      var s' := AfterAdd(s, fd, refuses);
      AddAssignsFreshId(s, fd, refuses);
      assert AddResult(s, fd, refuses) == Ok(s.nextId);
      assert s' == StoreState(s.ready, s.files[s.nextId := WithId(fd, s.nextId)], s.nextId + 1);
      ArchiveEntriesAllAdded(s', es[1..], decode, refuses);
      var t := AddEntries(s', es[1..], decode, refuses).state;
      assert AddEntries(s, es, decode, refuses).state == t;
      forall i | 0 <= i < |es|
        ensures var bytes := es[i].content.value;
                t.files[s.nextId + i] ==
                  Record(s.nextId + i, es[i].name, ArchiveEntryType, |bytes|, bytes, Classify(decode(bytes)))
      {
        if i > 0 {
          assert es[i] == es[1..][i - 1];
          assert s.nextId + i == s'.nextId + (i - 1);
        }
      }
    }
  }

  /** An archive whose file entries all extract adds exactly one record
      per file entry, in order, and none for its directory entries. */
  lemma ArchiveAddsOnePerFileEntry(s: StoreState, es: seq<ZipEntry>, decode: Decoder, refuses: WritePolicy)
    requires WellFormed(s) && s.ready
    requires s.nextId + |NonDirectories(es)| <= MaxGeneratedKey + 1
    requires forall i :: 0 <= i < |es| ==> es[i].isDir || es[i].content.Some?
    requires forall m, r :: !refuses(m, r)
    ensures var p := AddEntries(s, es, decode, refuses);
            var fe := NonDirectories(es);
            && p.ok
            && p.state.nextId == s.nextId + |fe|
            && (forall k :: k in p.state.files <==> k in s.files || s.nextId <= k < s.nextId + |fe|)
            && (forall i :: 0 <= i < |fe| ==>
                  && !fe[i].isDir && fe[i] in es
                  && p.state.files[s.nextId + i].name == fe[i].name)
  {
    DirectoriesAddNothing(s, es, decode, refuses);
    var fe := NonDirectories(es);
    forall i | 0 <= i < |fe|
      ensures !fe[i].isDir && fe[i] in es && fe[i].content.Some?
    {
      NonDirectoriesMembers(es, fe[i]);
    }
    ArchiveEntriesAllAdded(s, fe, decode, refuses);
  }

  /** A plain (non-archive) file is added once, with its own name, type and
      bytes, when the store accepts the write. */
  lemma PlainFileAddedOnce(s: StoreState, f: InputFile, env: Env)
    requires !IsArchiveName(f.name)
    ensures var fd := MakeFileData(FileMeta(f.name, f.mimeType, f.size), f.bytes, env.decode);
            var p := ImportFile(s, f, env);
            && p.ok == AddResult(s, fd, env.refuses).Ok?
            && (p.ok ==> p.state.files == s.files[s.nextId :=
                  Record(s.nextId, f.name, f.mimeType, |f.bytes|, f.bytes, Classify(env.decode(f.bytes)))])
            && (!p.ok ==> p.state == s)
  {
  }

  /** Importing `a + b` is importing `a` and then `b` from where `a` left
      the store: what happens to later files does not depend on whether
      earlier ones failed. */
  lemma {:induction false} ImportBatchSplit(s: StoreState, a: seq<InputFile>, b: seq<InputFile>, env: Env)
    ensures var ra := ImportBatch(s, a, env);
            var rb := ImportBatch(ra.state, b, env);
            ImportBatch(s, a + b, env) == Report(rb.state, ra.failed + rb.failed)
    decreases |b|
  {
    if b == [] {
      assert a + b == a;
    } else {
      var b' := b[..|b| - 1];
      assert (a + b)[..|a + b| - 1] == a + b';
      assert (a + b)[|a + b| - 1] == b[|b| - 1];
      ImportBatchSplit(s, a, b', env);
    }
  }

  /** A file the batch cannot import (here: an archive that does not parse)
      is skipped: the store ends as if the file had not been selected, and
      its name is reported once among the failures. */
  lemma CorruptArchiveSkipped(s: StoreState, a: seq<InputFile>, f: InputFile, b: seq<InputFile>, env: Env)
    requires IsArchiveName(f.name) && env.unzip(f.bytes) == None
    ensures var ra := ImportBatch(s, a, env);
            var rb := ImportBatch(ra.state, b, env);
            && ImportBatch(s, a + [f] + b, env) == Report(rb.state, ra.failed + [f.name] + rb.failed)
            && ImportBatch(s, a + b, env) == Report(rb.state, ra.failed + rb.failed)
  {
    var ra := ImportBatch(s, a, env);
    ImportBatchSplit(s, a, b, env);
    ImportBatchSplit(s, a + [f], b, env);
    ImportBatchSplit(s, a, [f], env);
    assert [f][..0] == [];
    assert a + [f] + b == (a + [f]) + b;
  }
}
