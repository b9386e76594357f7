/** Packaging for export (App.tsx, handleExportAll): every record of the
    in-memory list becomes one `name -> data` entry of a bundle saved as
    "stork23_backup.zip"; an empty list produces no bundle. */
module ExportPipeline {
  import opened Types
  import opened ContentClassifier
  import opened IndexedDB
  import opened ImportPipeline

  const BackupName := "stork23_backup.zip"

  /** One `zip.file(name, data)` call. */
  datatype BundleEntry = BundleEntry(name: string, data: seq<byte>)

  datatype ExportOutcome =
    | NothingToExport                                      // "No files to export."
    | Bundle(fileName: string, entries: seq<BundleEntry>)

  /** The entries the bundle receives for a list of records, in list order. */
  function BundleOf(files: seq<Record>): (b: seq<BundleEntry>)
    ensures |b| == |files|
    ensures forall i :: 0 <= i < |b| ==> b[i] == BundleEntry(files[i].name, files[i].data)
  {
    if files == [] then [] else [BundleEntry(files[0].name, files[0].data)] + BundleOf(files[1..])
  }

  /** What a decoder that reads the bundle back faithfully yields: one
      extractable file entry per bundle entry. */
  function AsZipEntries(b: seq<BundleEntry>): (es: seq<ZipEntry>)
    ensures |es| == |b|
    ensures forall i :: 0 <= i < |es| ==> es[i] == ZipEntry(b[i].name, false, Some(b[i].data))
  {
    if b == [] then [] else [ZipEntry(b[0].name, false, Some(b[0].data))] + AsZipEntries(b[1..])
  }

  /** The backup file name is recognised as an archive on import. */
  lemma BackupNameIsArchive()
    ensures IsArchiveName(BackupName)
  {
    ArchiveNameIffZipSuffix(BackupName);
  }

  lemma BackupImportsAsArchive(s: StoreState, f: InputFile, env: Env, es: seq<ZipEntry>)
    requires f.name == BackupName && env.unzip(f.bytes) == Some(es)
    ensures ImportFile(s, f, env) == AddEntries(s, es, env.decode, env.refuses)
  {
    BackupNameIsArchive();
  }

  /** Expanding an exported bundle adds one record per exported record,
      under consecutive fresh ids, with the same name and the same bytes. */
  lemma BundleEntriesAllAdded(s: StoreState, records: seq<Record>, decode: Decoder, refuses: WritePolicy)
    requires WellFormed(s) && s.ready && s.nextId + |records| <= MaxGeneratedKey + 1
    requires forall m, r :: !refuses(m, r)
    ensures AddEntries(s, AsZipEntries(BundleOf(records)), decode, refuses).ok
    ensures AddEntries(s, AsZipEntries(BundleOf(records)), decode, refuses).state.nextId == s.nextId + |records|
    ensures forall i :: 0 <= i < |records| ==>
              var t := AddEntries(s, AsZipEntries(BundleOf(records)), decode, refuses).state;
              && s.nextId + i in t.files
              && t.files[s.nextId + i].name == records[i].name
              && t.files[s.nextId + i].data == records[i].data
              && t.files[s.nextId + i].size == |records[i].data|
  {
    ArchiveEntriesAllAdded(s, AsZipEntries(BundleOf(records)), decode, refuses);
  }

  /** Round trip: importing a backup whose bundle decodes to the exported
      entries restores one record per exported record, under consecutive
      fresh ids, with the same name and the same bytes. */
  lemma ReimportRestoresRecords(s: StoreState, records: seq<Record>, f: InputFile, env: Env)
    requires WellFormed(s) && s.ready && s.nextId + |records| <= MaxGeneratedKey + 1
    requires f.name == BackupName
    requires env.unzip(f.bytes) == Some(AsZipEntries(BundleOf(records)))
    requires forall m, r :: !env.refuses(m, r)
    ensures var p := ImportFile(s, f, env);
            && p.ok
            && p.state.nextId == s.nextId + |records|
            && forall i :: 0 <= i < |records| ==>
                 && s.nextId + i in p.state.files
                 && p.state.files[s.nextId + i].name == records[i].name
                 && p.state.files[s.nextId + i].data == records[i].data
                 && p.state.files[s.nextId + i].size == |records[i].data|
  {
    BackupImportsAsArchive(s, f, env, AsZipEntries(BundleOf(records)));
    BundleEntriesAllAdded(s, records, env.decode, env.refuses);
  }
}
