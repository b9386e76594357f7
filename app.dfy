/** The vault's screen logic (App.tsx): the state React keeps for it
    (the in-memory file list, the editor text, the loading flag), the
    browser's localStorage slot for the editor, and the handlers for
    import, open, download, delete, export, clear, save and load. */
module App {
  import opened Types
  import opened ContentClassifier
  import opened IndexedDB
  import opened ImportPipeline
  import opened ExportPipeline

  const LocalStorageKey := "stork23_editor_text"

  /** The editor text shown for a record with no text content. */
  function BinaryPlaceholder(name: string): string
  {
    "[Binary file: " + name + " - Not displayable]"
  }

  /** `file.textContent ?? placeholder` */
  function DisplayText(r: Record): string
  {
    match r.textContent
    case Some(t) => t
    case None => BinaryPlaceholder(r.name)
  }

  /** Opening a stored file shows its decoded content exactly when the
      classifier judged it text, and otherwise the placeholder naming it. */
  lemma OpenShowsTextOfTextFiles(meta: FileMeta, buffer: seq<byte>, decode: Decoder, id: int)
    ensures var shown := DisplayText(WithId(MakeFileData(meta, buffer, decode), id));
            && (20 * multiset(decode(buffer))['\0'] < |decode(buffer)| ==> shown == decode(buffer))
            && (20 * multiset(decode(buffer))['\0'] >= |decode(buffer)| ==> shown == BinaryPlaceholder(meta.name))
  {
  }

  /** A downloaded file: suggested name, content type and bytes. */
  datatype Download = Download(fileName: string, mimeType: string, bytes: seq<byte>)

  class Vault {
    const store: RecordStore
    var files: seq<Record>                  // the list as last refreshed, in ascending id order
    var editorContent: string
    var isLoading: bool
    var localStorage: map<string, string>

    ghost predicate Valid()
      reads this, store
    {
      store.Valid()
    }

    constructor (store: RecordStore, localStorage: map<string, string>)
      requires store.Valid()
      ensures Valid() && this.store == store && this.localStorage == localStorage
      ensures files == [] && editorContent == "" && isLoading
    {
      this.store := store;
      this.localStorage := localStorage;
      files := [];
      editorContent := "";
      isLoading := true;
    }

    /** refreshFiles: reload the list when the store is ready. */
    method RefreshFiles()
      requires Valid()
      modifies this`files, this`isLoading
      ensures Valid()
      ensures store.ready ==> files == Listing(store.State()) && !isLoading
      ensures !store.ready ==> files == old(files) && isLoading == old(isLoading)
    {
      if store.ready {
        var r := store.GetAll();
        if r.Ok? {
          files := r.value;
        }
        isLoading := false;
      }
    }

    /** Mounting: open the database, then load the list once it is ready. */
    method Start(denied: bool)
      requires Valid()
      modifies this`files, this`isLoading, store
      ensures Valid()
      ensures store.ready <==> !denied && old(store.version) <= DbVersion
      ensures store.files == old(store.files) && store.nextId == old(store.nextId)
      ensures store.ready ==> files == Listing(store.State()) && !isLoading
      ensures !store.ready ==> files == old(files) && isLoading == old(isLoading)
    {
      store.Open(denied);
      RefreshFiles();
    }

    /** The inner loop over an archive's entries. */
    method AddArchiveEntries(es: seq<ZipEntry>, env: Env) returns (ok: bool)
      requires Valid()
      modifies store`files, store`nextId
      ensures Valid()
      ensures AddEntries(old(store.State()), es, env.decode, env.refuses) == Progress(store.State(), ok)
    {
      ghost var s0 := store.State();
      ok := true;
      var j := 0;
      while j < |es| && ok
        invariant 0 <= j <= |es|
        invariant store.Valid()
        invariant ok ==> AddEntries(s0, es, env.decode, env.refuses) ==
                           AddEntries(store.State(), es[j..], env.decode, env.refuses)
        invariant !ok ==> AddEntries(s0, es, env.decode, env.refuses) == Progress(store.State(), false)
      {
        var e := es[j];
        assert es[j..][0] == e && es[j..][1..] == es[j + 1..];
        if !e.isDir {
          match e.content {
            case None =>
              ok := false;
            case Some(bytes) =>
              var r := store.Add(EntryMeta(e.name, bytes), bytes, env.decode, env.refuses);
              ok := r.Ok?;
          }
        }
        j := j + 1;
      }
    }

    /** The try block for one selected file. */
    method ImportOne(f: InputFile, env: Env) returns (ok: bool)
      requires Valid()
      modifies store`files, store`nextId
      ensures Valid()
      ensures ImportFile(old(store.State()), f, env) == Progress(store.State(), ok)
    {
      if IsArchiveName(f.name) {
        var archive := env.unzip(f.bytes);
        if archive.None? {
          return false;
        }
        ok := AddArchiveEntries(archive.value, env);
      } else {
        var r := store.Add(FileMeta(f.name, f.mimeType, f.size), f.bytes, env.decode, env.refuses);
        ok := r.Ok?;
      }
    }

    /** handleFileImport: process the selection file by file, catching each
        file's failure, then refresh the list. Returns the names of the
        files that failed, in order. */
    method HandleFileImport(selection: Option<seq<InputFile>>, env: Env) returns (failed: seq<string>)
      requires Valid()
      modifies this`files, this`isLoading, store`files, store`nextId
      ensures Valid()
      ensures selection.None? || selection.value == [] ==>
                && failed == [] && store.State() == old(store.State())
                && files == old(files) && isLoading == old(isLoading)
      ensures selection.Some? && selection.value != [] ==>
                && ImportBatch(old(store.State()), selection.value, env) == Report(store.State(), failed)
                && (store.ready ==> files == Listing(store.State()) && !isLoading)
                && (!store.ready ==> files == old(files) && isLoading == old(isLoading))
    {
      failed := [];
      if selection.None? || |selection.value| == 0 {
        return;
      }
      var fs := selection.value;
      ghost var s0 := store.State();
      var i := 0;
      while i < |fs|
        invariant 0 <= i <= |fs|
        invariant store.Valid()
        invariant ImportBatch(s0, fs[..i], env) == Report(store.State(), failed)
        invariant files == old(files) && isLoading == old(isLoading)
      {
        var f := fs[i];
        var ok := ImportOne(f, env);
        if !ok {
          failed := failed + [f.name];
        }
        assert fs[..i + 1][..i] == fs[..i];
        i := i + 1;
      }
      assert fs[..|fs|] == fs;
      RefreshFiles();
    }

    /** handleOpenFile: show a stored record in the editor; a missing id or
        an unavailable store leaves the editor as it was. */
    method HandleOpenFile(id: int)
      requires Valid()
      modifies this`editorContent
      ensures Valid()
      ensures store.ready && id in store.files ==> editorContent == DisplayText(store.files[id])
      ensures !(store.ready && id in store.files) ==> editorContent == old(editorContent)
    {
      var r := store.Get(id);
      if r.Ok? && r.value.Some? {
        editorContent := DisplayText(r.value.value);
      }
    }

    /** handleDownloadFile: the record's bytes, unmodified, under its own
        name and type. */
    method HandleDownloadFile(id: int) returns (d: Option<Download>)
      requires Valid()
      ensures d.Some? <==> store.ready && id in store.files
      ensures d.Some? ==> d.value.fileName == store.files[id].name
      ensures d.Some? ==> d.value.mimeType == store.files[id].mimeType
      ensures d.Some? ==> d.value.bytes == store.files[id].data && |d.value.bytes| == store.files[id].size
    {
      var r := store.Get(id);
      if r.Ok? && r.value.Some? {
        d := Some(Download(r.value.value.name, r.value.value.mimeType, r.value.value.data));
      } else {
        d := None;
      }
    }

    /** handleDeleteFile: only a confirmed request reaches the store. */
    method HandleDeleteFile(confirmed: bool, id: int)
      requires Valid()
      modifies this`files, this`isLoading, store`files
      ensures Valid()
      ensures !(confirmed && store.ready) ==>
                store.files == old(store.files) && files == old(files) && isLoading == old(isLoading)
      ensures confirmed && store.ready ==>
                && store.files == old(store.files) - {id}
                && files == Listing(store.State()) && !isLoading
    {
      if confirmed {
        var r := store.Delete(id);
        if r.Ok? {
          RefreshFiles();
        }
      }
    }

    /** handleClearAll: a confirmed clear empties the store, the list and
        the editor. */
    method HandleClearAll(confirmed: bool)
      requires Valid()
      modifies this`files, this`isLoading, this`editorContent, store`files
      ensures Valid()
      ensures !(confirmed && store.ready) ==>
                && store.files == old(store.files) && files == old(files)
                && isLoading == old(isLoading) && editorContent == old(editorContent)
      ensures confirmed && store.ready ==>
                store.files == map[] && files == [] && !isLoading && editorContent == ""
    {
      if confirmed {
        var r := store.Clear();
        if r.Ok? {
          RefreshFiles();
          editorContent := "";
        }
      }
    }

    /** handleExportAll: one bundle entry per record of the in-memory list;
        an empty list short-circuits. */
    method HandleExportAll() returns (out: ExportOutcome)
      ensures files == [] <==> out == NothingToExport
      ensures files != [] ==> out == Bundle(BackupName, BundleOf(files))
    {
      if |files| == 0 {
        return NothingToExport;
      }
      var entries: seq<BundleEntry> := [];
      for i := 0 to |files|
        invariant |entries| == i
        invariant forall j :: 0 <= j < i ==> entries[j] == BundleEntry(files[j].name, files[j].data)
      {
        entries := entries + [BundleEntry(files[i].name, files[i].data)];
      }
      out := Bundle(BackupName, entries);
    }

    /** The editor's setContent. */
    method Edit(text: string)
      modifies this`editorContent
      ensures editorContent == text
    {
      editorContent := text;
    }

    /** handleSaveLocal: the slot holds the editor text; the last save wins.
        `refused` is setItem throwing QuotaExceededError, which leaves the
        slot as it was; `saved` is whether the confirmation alert shows. */
    method HandleSaveLocal(refused: bool) returns (saved: bool)
      modifies this`localStorage
      ensures saved == !refused
      ensures !refused ==> localStorage == old(localStorage)[LocalStorageKey := editorContent]
      ensures refused ==> localStorage == old(localStorage)
    {
      if refused {
        return false;
      }
      localStorage := localStorage[LocalStorageKey := editorContent];
      saved := true;
    }

    /** handleLoadLocal: a saved non-empty text replaces the editor text; an
        absent or empty one leaves it. */
    method HandleLoadLocal()
      modifies this`editorContent
      ensures LocalStorageKey in localStorage && localStorage[LocalStorageKey] != "" ==>
                editorContent == localStorage[LocalStorageKey]
      ensures !(LocalStorageKey in localStorage && localStorage[LocalStorageKey] != "") ==>
                editorContent == old(editorContent)
    {
      if LocalStorageKey in localStorage && localStorage[LocalStorageKey] != "" {
        editorContent := localStorage[LocalStorageKey];
      }
    }
  }

  /** Save, type something else, load: a non-empty saved text comes back;
      an empty one is never restored, so the later typing stays. A save
      over quota keeps the slot, so load brings back what it held before. */
  method SaveEditLoad(v: Vault, typed: string, refused: bool)
    modifies v`editorContent, v`localStorage
    ensures !refused ==> v.editorContent == if old(v.editorContent) != "" then old(v.editorContent) else typed
    ensures !refused ==> LocalStorageKey in v.localStorage && v.localStorage[LocalStorageKey] == old(v.editorContent)
    ensures refused ==> v.localStorage == old(v.localStorage)
    ensures refused ==>
              (v.editorContent == if LocalStorageKey in old(v.localStorage) && old(v.localStorage)[LocalStorageKey] != ""
                                  then old(v.localStorage)[LocalStorageKey] else typed)
  {
    var saved := v.HandleSaveLocal(refused);
    v.Edit(typed);
    v.HandleLoadLocal();
  }
}
