/**
 * The gallery document: folder names mapped to ordered lists of image records,
 * and the fallback rule used when the document is loaded (app.js:29-42).
 */
module Records {

  datatype Option<+T> = None | Some(value: T)

  /** One stored image record. `createdAt` is absent in records the store
      holds without one; `getAllImages` counts such a record as time 0. */
  datatype Image = Image(id: string, name: string, dataUrl: string, tags: seq<string>, createdAt: Option<int>)

  /** The `folders` field of the document: each folder name owns an ordered list of records. */
  type Folders = map<string, seq<Image>>

  /** A record as `getAllImages` lists it, annotated with the folder that owns it. */
  datatype Entry = Entry(folder: string, image: Image)

  /** A file handed to the upload: its name, its declared media type and its
      payload as `readFileAsDataURL` delivers it. */
  datatype FileInput = FileInput(name: string, mimeType: string, payload: string)

  /** The values `uid()` and `Date.now()` supply for one uploaded record. */
  datatype Stamp = Stamp(id: string, now: int)

  /** What `localStorage.getItem` and `JSON.parse` give under the gallery's key:
      nothing (or the empty string), text that does not parse, a parsed value
      without a truthy `folders` field, or a saved document. */
  datatype Stored = Absent | Unparsable | NoFolders | Saved(folders: Folders)

  /** The default document: one empty folder named "Default". */
  function DefaultFolders(): (f: Folders)
    ensures f.Keys == {"Default"} && f["Default"] == []
  {
    map["Default" := []]
  }

  /** `loadState`: the saved folders, and the default document on every failure path. */
  function LoadState(stored: Stored): (folders: Folders)
    ensures !stored.Saved? ==> folders == DefaultFolders()
  {
    match stored
    case Saved(f) => f
    case _ => DefaultFolders()
  }
}
