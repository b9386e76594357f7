# File vault: record store and import pipeline

A model of the storage and import core of a browser file vault. It imports
files into an IndexedDB object store, unpacking `.zip` archives on the way.
It judges each buffer to be text or binary, and lets the user open,
download, delete, export and clear stored files. The editor text can also
be kept in a single `localStorage` slot.

Modules, one per component:

- `Types` (`types.dfy`): the stored record (`StoredFile`) and the record
  without its id that `addFile` writes.
- `ContentClassifier` (`classify.dfy`): the U+0000 heuristic inside
  `addFile`.
- `IndexedDB` (`indexeddb.dfy`): the record literal built by `addFile`, the
  store as a value (`StoreState`) with the functions that specify `add` and
  `getAll`, and the class `RecordStore`. The class holds the persistent
  table (`files: map<int, Record>`), the key generator's current number
  (`nextId`), the schema state (`version`, `created`) and the session
  handle (`ready`).
- `ImportPipeline` (`import.dfy`): what `handleFileImport` does to the
  store, as functions on values, with the lemmas about it.
- `ExportPipeline` (`export.dfy`): the bundle built by `handleExportAll`,
  and the round trip back through import.
- `App` (`app.dfy`): the class `Vault`. It holds the React state of
  `App.tsx` (`files`, `editorContent`, `isLoading`) and the `localStorage`
  map as fields, and has one method per handler. Each imperative handler
  is proved against the value-level functions: the import loop against
  `ImportBatch`, the archive loop against `AddEntries`, the export loop
  against `BundleOf`.

Outside pieces are parameters:

- The UTF-8 decoder is a total function `seq<byte> -> string`.
- The archive decoder is a function that returns `None` when the bundle does
  not parse. Otherwise it returns `(name, isDir, content)` entries, where
  `content` is `None` when extracting that entry fails.
- An error event on the add request itself is a `WritePolicy`
  predicate. Such an error makes `add` fail.
- `window.confirm` is a boolean argument.
- The environment denying storage access is a boolean argument of `Open`.

Key generation follows section 2.11 (Key generators) of the W3C Indexed
Database API 3.0:

- the first key is 1;
- each generated key is one more than the previous one;
- deleting records and clearing the store never lower the current number;
- a failed write is reverted along with its key;
- once the current number exceeds 2^53, adding fails with a ConstraintError.

`getAll` returns records in ascending key order, because an object store
keeps its records sorted by key.

Where the code is narrower than a general description of such a vault
would be, the model follows the code:

- There is no aggregate import report. The code raises one alert per failed
  file, and the model returns the failed names in order.
- A failed open does not make later calls fail with a separate error. It
  leaves the store without a handle, so every later call fails with
  "Database not initialized".
- Record names are not checked. A name may be empty, and two records may
  share a name.

The source keeps two state variables, the handle `db` and `isReady`. The
model keeps one flag, `ready`. Both variables are set together when the
open succeeds, only `isReady` is cleared on error, and the open runs once
per session while `db` is still null. So the two never differ.

## Model

| member | source | states |
|---|---|---|
| ContentClassifier.Classify | hooks/useIndexedDB.ts:48-58 | the text content is the whole decoded string exactly when 20 × (number of U+0000) < length, and nothing otherwise; an empty buffer is binary |
| ContentClassifier.NullCountIsMultiplicity | hooks/useIndexedDB.ts:53 | the count of `/\0/g` matches is the multiplicity of U+0000 in the decoded string |
| ContentClassifier.NullCountAppend | hooks/useIndexedDB.ts:53 | the null count of a concatenation is the sum of the counts |
| ContentClassifier.NoNullsIsText | hooks/useIndexedDB.ts:53-55 | a non-empty decoded string without U+0000 is kept as text |
| ContentClassifier.ExtraNullNeverMakesText | hooks/useIndexedDB.ts:53 | the verdict is monotone: if adding a U+0000 leaves a string text, the string without it was text too |
| IndexedDB.MakeFileData | hooks/useIndexedDB.ts:60-67 | the record keeps name and type from the input, sets size to the buffer's byte length (ignoring the given size), stores the buffer unchanged, and has text content exactly under the threshold |
| IndexedDB.AddAssignsFreshId | hooks/useIndexedDB.ts:19 | a successful add gets the generator's current number: absent before, above every earlier key; the table gains exactly that entry; a failed add changes nothing; with no handle, add fails with NotInitialized |
| IndexedDB.InKeyOrderExact | hooks/useIndexedDB.ts:87-95 | the listing of a key range has exactly the records stored in that range, in strictly ascending id order |
| IndexedDB.ListingExact | hooks/useIndexedDB.ts:87-95 | getAll lists every stored record, only stored records, each once, ordered by id |
| IndexedDB.EmptyListing | hooks/useIndexedDB.ts:107-115 | an empty table lists as the empty sequence |
| IndexedDB.RecordStore.constructor | hooks/useIndexedDB.ts:9-11 | a session starts without a handle over the database as it was left |
| IndexedDB.RecordStore.UpgradeSchema | hooks/useIndexedDB.ts:16-21 | the object store exists afterwards; it is created only when absent, so repeating the upgrade changes nothing |
| IndexedDB.RecordStore.Open | hooks/useIndexedDB.ts:13-32 | the store becomes ready exactly when access is not denied and the database is at most version 1 (DB_VERSION); a denied open, or one on a newer database (VersionError), leaves the store not ready and the schema as it was; a successful open upgrades a missing or older database to version 1; records and key generator are untouched |
| IndexedDB.RecordStore.Add | hooks/useIndexedDB.ts:46-75 | with no handle: fails with NotInitialized and changes nothing; otherwise returns a fresh id above every stored id, and the table is the old one plus that record; on failure nothing changes |
| IndexedDB.RecordStore.Get | hooks/useIndexedDB.ts:77-85 | fails with NotInitialized exactly when no handle exists; otherwise returns the record under the id, or nothing when it is absent; the record returned carries that id; the store is not modified |
| IndexedDB.RecordStore.GetAll | hooks/useIndexedDB.ts:87-95 | fails with NotInitialized exactly when no handle exists; otherwise returns every stored record once, in ascending id order |
| IndexedDB.RecordStore.Delete | hooks/useIndexedDB.ts:97-105 | with a handle: the id is removed and every other entry is unchanged; deleting an absent id changes nothing; with no handle: NotInitialized and no change |
| IndexedDB.RecordStore.Clear | hooks/useIndexedDB.ts:107-115 | with a handle: the table is empty and getAll yields the empty sequence, while the key generator is kept; with no handle: NotInitialized and no change |
| IndexedDB.ReopenChangesNothing | hooks/useIndexedDB.ts:13-27 | opening an open database again leaves its state unchanged |
| IndexedDB.NoReuseAfterDelete | hooks/useIndexedDB.ts:19 | after add then delete, get finds nothing, and the next add gets a larger id: deleted ids are never reused |
| ImportPipeline.ToLower | App.tsx:47 | lower-casing keeps the length and lower-cases each character |
| ImportPipeline.ArchiveNameIffZipSuffix | App.tsx:47 | a file counts as an archive exactly when its name ends in '.', 'z', 'i', 'p', in either case |
| ImportPipeline.AddExtends | hooks/useIndexedDB.ts:69-72 | add keeps the store well formed and only adds records under fresh keys |
| ImportPipeline.AddEntriesExtends | App.tsx:49-59 | expanding an archive only adds records under fresh keys, leaving stored records unchanged |
| ImportPipeline.ImportFileExtends | App.tsx:46-63 | importing one file only adds records under fresh keys |
| ImportPipeline.ImportBatchExtends | App.tsx:45-68 | a whole batch keeps every record stored before it unchanged and adds only under keys never used before |
| ImportPipeline.NonDirectories | App.tsx:50 | filtering never yields more entries than it is given |
| ImportPipeline.NonDirectoriesMembers | App.tsx:50 | an entry is kept exactly when it occurs in the archive and is not a directory |
| ImportPipeline.NonDirectoriesCount | App.tsx:50 | each non-directory entry is kept as often as it occurs, and no directory entry is kept |
| ImportPipeline.NonDirectoriesAppend | App.tsx:49-50 | the entries are visited in order: filtering a concatenation is the concatenation of the filtered parts |
| ImportPipeline.NonDirectoriesOne | App.tsx:50 | one entry is kept exactly when it is not a directory |
| ImportPipeline.DirectoriesAddNothing | App.tsx:49-50 | removing the directory entries of an archive does not change what its expansion does |
| ImportPipeline.AddEntriesSplit | App.tsx:49-59 | expanding entries `a + b` expands `a`, then `b` only if `a` went through |
| ImportPipeline.FailedEntryAbortsArchive | App.tsx:51 | an entry that fails to extract fails its archive: entries before it stay added, none after it is added |
| ImportPipeline.ArchiveEntriesAllAdded | App.tsx:49-58 | when nothing fails, each file entry yields one record under the next key, named after the entry, typed application/octet-stream, sized by its bytes, with those bytes |
| ImportPipeline.ArchiveAddsOnePerFileEntry | App.tsx:49-58 | an archive whose file entries all extract adds one record per non-directory entry, in order, and none for directories |
| ImportPipeline.PlainFileAddedOnce | App.tsx:60-63 | a non-archive file is added once, with its own name, type and bytes; if the add fails, nothing changes |
| ImportPipeline.ImportBatchSplit | App.tsx:45-68 | importing `a + b` imports `a`, then `b` from where `a` left the store; failures from both are reported in order |
| ImportPipeline.CorruptArchiveSkipped | App.tsx:45-68 | an archive that does not parse leaves the store as if it had not been selected; its name is reported once among the failures |
| ExportPipeline.BundleOf | App.tsx:128-130 | the bundle gets one `name → data` entry per record, in list order |
| ExportPipeline.AsZipEntries | App.tsx:48-51 | a faithful decoding of a bundle gives one extractable file entry per bundle entry |
| ExportPipeline.BackupNameIsArchive | App.tsx:136 | the backup file name is treated as an archive on import |
| ExportPipeline.BackupImportsAsArchive | App.tsx:47-48 | importing the backup file goes through the archive branch |
| ExportPipeline.BundleEntriesAllAdded | App.tsx:49-58 | expanding an exported bundle adds one record per exported record, under consecutive fresh ids, with the same name, bytes and size |
| ExportPipeline.ReimportRestoresRecords | App.tsx:121-131 | round trip: re-importing a backup restores every exported record's name and bytes |
| App.OpenShowsTextOfTextFiles | App.tsx:81 | a stored file opens to its decoded text when it was classified as text, and otherwise to "[Binary file: name - Not displayable]" |
| App.Vault.constructor | App.tsx:15-18 | the screen starts with an empty list, an empty editor and the loading flag set |
| App.Vault.RefreshFiles | App.tsx:21-33 | when the store is ready, the list becomes the store's listing and loading ends; otherwise nothing changes |
| App.Vault.Start | App.tsx:35-37 | mounting opens the database; it is ready exactly when access is not denied and the database is at most version 1, and then the list is loaded; otherwise list and loading flag are unchanged |
| App.Vault.AddArchiveEntries | App.tsx:49-59 | the entry loop leaves the store exactly as `AddEntries` specifies, and reports whether it finished |
| App.Vault.ImportOne | App.tsx:46-63 | the try block for one file leaves the store exactly as `ImportFile` specifies |
| App.Vault.HandleFileImport | App.tsx:39-75 | an empty or missing selection changes nothing; otherwise the store ends as `ImportBatch` specifies, the returned failures are the failed file names in order, and the list is refreshed |
| App.Vault.HandleOpenFile | App.tsx:77-87 | the editor shows the record's text or the binary placeholder; a missing id or an unready store leaves it unchanged |
| App.Vault.HandleDownloadFile | App.tsx:89-107 | a download exists exactly for a stored id; it carries the record's name, type and unmodified bytes |
| App.Vault.HandleDeleteFile | App.tsx:109-119 | without confirmation nothing changes; a confirmed delete removes that id and refreshes the list |
| App.Vault.HandleClearAll | App.tsx:147-158 | without confirmation nothing changes; a confirmed clear empties the store and the list and resets the editor to "" |
| App.Vault.HandleExportAll | App.tsx:121-130 | an empty list gives "nothing to export"; otherwise the bundle "stork23_backup.zip" holds one entry per listed record |
| App.Vault.Edit | App.tsx:209 | typing sets the editor text |
| App.Vault.HandleSaveLocal | App.tsx:160-163 | the fixed key holds the editor text and the last save wins; a save over quota (setItem throws) leaves the slot unchanged and shows no confirmation |
| App.Vault.HandleLoadLocal | App.tsx:165-172 | a saved non-empty text replaces the editor text; an absent or empty one leaves it |
| App.SaveEditLoad | App.tsx:160-172 | save, type, load: a non-empty saved text comes back, an empty one is never restored; after a save over quota the slot is unchanged and load brings back its older non-empty text, if any |

## Left out

- React rendering, hooks plumbing and the presentation components are not modelled.
- App.Vault.HandleExportAll: bundles `Vault.files` in ascending id order. In the source, `FileList` sorts App's own `files` array in place, newest `created` first (components/FileList.tsx:24), so after a render the source exports newest first. The sort needs the `created` timestamp, which is left out, so the model does not capture this order.
- Promises, IndexedDB request callbacks and transaction concurrency are not modelled. Each store operation is one sequential step.
- The `created` timestamp (`new Date().toISOString()`) is left out of the record, because it reads the clock.
- `addFile` resolves on the add request's success and does not wait for the transaction to commit. A transaction that aborts at commit time (a quota or disk failure) is not modelled. In the source, such a file counts as imported although the abort removes its record and reverts the key generator. `WritePolicy` stands only for errors raised on the add request itself.
- `get`, `getAll`, `delete` and `clear` fail only when no handle exists. Other request errors of those operations are not modelled.
- A failure of `file.arrayBuffer()` while reading a plain file is not modelled. The bytes of each selected file are given.
- `alert`, `console`, the download wiring (Blob, object URL, anchor), `handleExportTxt` and resetting the file input are DOM I/O and are not modelled. The per-file error alerts appear only as the list of failed names that `HandleFileImport` returns.
- `zip.generateAsync` and the archive codec are not modelled. Export stops at the list of bundle entries, so duplicate names collapsing inside the bundle and a failure to generate it are not captured.
- JSZip enumerates `zip.files` as a JavaScript object. Integer-like names come first and duplicate names collapse. The model takes the decoder's entry order as given.
- UTF-8 decoding and its replacement characters are not modelled. The decoded string is a parameter of the model.
- ContentClassifier.Classify: `decoded.length` counts UTF-16 code units, while the model counts the characters of the decoded sequence. The two differ for characters outside the Basic Multilingual Plane.
- ContentClassifier.Classify: the floating-point comparison `nulls < length * 0.05` is stated as the integer comparison `20 * nulls < length`. This is an idealisation of the double-precision product.
- ImportPipeline.ToLower: `toLowerCase` is modelled for ASCII letters only. The archive test depends only on the last four characters, and no other character lower-cases to '.', 'z', 'i' or 'p'. So `IsArchiveName` decides the same as the source.
- ExportPipeline.ReimportRestoresRecords: the round trip assumes the archive decoder returns exactly the exported entries, and that the back end accepts every write.
- The try/catch around decoding in `addFile` is not modelled. The decoder is created without the `fatal` option, so decoding does not throw.
