/** The persisted unit of the vault and the small value types shared by the
    other modules (types.ts). */
module Types {

  /** One byte of a file's content (an ArrayBuffer is a sequence of these). */
  newtype byte = x: int | 0 <= x < 256

  datatype Option<+T> = None | Some(value: T)

  /** A stored file (StoredFile without its `created` timestamp).
      `mimeType` is the source's `type` field. */
  datatype Record = Record(
    id: int,
    name: string,
    mimeType: string,
    size: int,
    data: seq<byte>,
    textContent: Option<string>)

  /** What the vault writes for a new file: a record without its id
      (Omit<StoredFile, 'id'>); the store supplies the id. */
  datatype FileData = FileData(
    name: string,
    mimeType: string,
    size: int,
    data: seq<byte>,
    textContent: Option<string>)

  /** The record the store holds for `fd` once it has assigned `id`
      (the object store's key path is "id"). */
  function WithId(fd: FileData, id: int): Record
  {
    Record(id, fd.name, fd.mimeType, fd.size, fd.data, fd.textContent)
  }
}
