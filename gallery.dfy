/**
 * The gallery's mutable state (app.js:27, `let state = loadState()`) and the
 * handlers that change it: create folder (app.js:145-151), upload
 * (app.js:171-193), delete image (app.js:355-358) and reset (app.js:381-384),
 * plus the read-only `getAllImages` (app.js:231-241). Every change is written
 * to the store, modelled as the field `stored`.
 */
module Gallery {
  import opened Seqs
  import opened Text
  import opened Tags
  import opened FolderName
  import opened Records
  import opened Listing
  import opened Timeline

  datatype CreateOutcome = EmptyName | AlreadyExists | Created(name: string)

  /** How an upload ends: no folder selected, no files, a `TypeError` from
      pushing into a folder that is not there, or done. */
  datatype UploadOutcome = NoFolderSelected | NoFiles | MissingFolder | Uploaded

  /** `file.type?.startsWith("image/")`. */
  predicate IsImageType(mimeType: string) {
    "image/" <= mimeType
  }

  /** The files the upload loop does not skip, in their order. */
  function AcceptedFiles(files: seq<FileInput>): (r: seq<FileInput>)
    ensures IsSubsequence(r, files)
    ensures forall f :: f in r <==> f in files && IsImageType(f.mimeType)
  {
    if files == [] then []
    else
      var init, last := files[..|files| - 1], files[|files| - 1];
      var r := AcceptedFiles(init);
      assert files == init + [last];
      SubsequenceSnoc(r, init, last);
      if IsImageType(last.mimeType) then r + [last] else r
  }

  /** Each image file is accepted as often as it is given; no other file is. */
  lemma {:induction false} AcceptedFilesCount(files: seq<FileInput>, f: FileInput)
    ensures multiset(AcceptedFiles(files))[f] == if IsImageType(f.mimeType) then multiset(files)[f] else 0
  {
    if files != [] {
      var init, last := files[..|files| - 1], files[|files| - 1];
      AcceptedFilesCount(init, f);
      assert files == init + [last];
    }
  }

  /** The record pushed for an accepted file: `{ id: uid(), name, dataUrl, tags, createdAt: Date.now() }`. */
  function Record(file: FileInput, stamp: Stamp, tags: seq<string>): Image {
    Image(stamp.id, file.name, file.payload, tags, Some(stamp.now))
  }

  /** The records the upload loop pushes: one per accepted file, with the
      file's name and payload, the shared tag list and the supplied id and time. */
  function NewRecords(files: seq<FileInput>, stamps: seq<Stamp>, tags: seq<string>): seq<Image>
    requires |stamps| == |files|
  {
    if files == [] then []
    else
      var n := |files| - 1;
      NewRecords(files[..n], stamps[..n], tags)
        + if IsImageType(files[n].mimeType)
          then [Record(files[n], stamps[n], tags)]
          else []
  }

  /** The pushed records follow the accepted files one for one and in order,
      all carrying the same tag list and a creation time. */
  lemma {:induction false} NewRecordsFollowFiles(files: seq<FileInput>, stamps: seq<Stamp>, tags: seq<string>)
    requires |stamps| == |files|
    ensures |NewRecords(files, stamps, tags)| == |AcceptedFiles(files)|
    ensures forall k :: 0 <= k < |AcceptedFiles(files)| ==>
      var img, f := NewRecords(files, stamps, tags)[k], AcceptedFiles(files)[k];
      img.name == f.name && img.dataUrl == f.payload && img.tags == tags && img.createdAt.Some?
  {
    if files != [] {
      var n := |files| - 1;
      NewRecordsFollowFiles(files[..n], stamps[..n], tags);
      assert files[..n] + [files[n]] == files;
    }
  }

  /** One more file: its record is pushed when it is an image, and nothing otherwise. */
  lemma NewRecordsStep(files: seq<FileInput>, stamps: seq<Stamp>, tags: seq<string>, i: nat)
    requires |stamps| == |files| && i < |files|
    ensures IsImageType(files[i].mimeType) ==>
      && NewRecords(files[..i + 1], stamps[..i + 1], tags) == NewRecords(files[..i], stamps[..i], tags) + [Record(files[i], stamps[i], tags)]
      && AcceptedFiles(files[..i + 1]) != []
    ensures !IsImageType(files[i].mimeType) ==>
      && NewRecords(files[..i + 1], stamps[..i + 1], tags) == NewRecords(files[..i], stamps[..i], tags)
      && AcceptedFiles(files[..i + 1]) == AcceptedFiles(files[..i])
  {
    assert files[..i + 1][..i] == files[..i] && stamps[..i + 1][..i] == stamps[..i];
  }

  /** `(state.folders[folder] || [])`. */
  function Lookup(folders: Folders, folder: string): seq<Image> {
    if folder in folders then folders[folder] else []
  }

  /** `.filter(x => x.id !== id)`: the records with another id, in their order. */
  function RemoveId(images: seq<Image>, id: string): (r: seq<Image>)
    ensures IsSubsequence(r, images)
    ensures forall x :: x in r <==> x in images && x.id != id
  {
    if images == [] then []
    else
      var rest := RemoveId(images[1..], id);
      assert images == [images[0]] + images[1..];
      if images[0].id != id then [images[0]] + rest else rest
  }

  /** Every record with another id is kept as often as it occurs; none with this id is. */
  lemma {:induction false} RemoveIdCount(images: seq<Image>, id: string, x: Image)
    ensures multiset(RemoveId(images, id))[x] == if x.id == id then 0 else multiset(images)[x]
  {
    if images != [] {
      assert images == [images[0]] + images[1..];
      RemoveIdCount(images[1..], id, x);
    }
  }

  /** The number of records with id `id`. */
  function CountId(images: seq<Image>, id: string): nat {
    if images == [] then 0 else (if images[0].id == id then 1 else 0) + CountId(images[1..], id)
  }

  /** Deleting removes exactly the records with that id: none for an unknown
      id (the list is unchanged), one for an id held once. */
  lemma {:induction false} RemoveIdLength(images: seq<Image>, id: string)
    ensures |RemoveId(images, id)| == |images| - CountId(images, id)
    ensures CountId(images, id) == 0 ==> RemoveId(images, id) == images
  {
    if images != [] {
      RemoveIdLength(images[1..], id);
    }
  }

  /** Every tag of the record is one `normalizeTags` can produce. */
  ghost predicate ImageTagged(img: Image) {
    forall t :: t in img.tags ==> IsTag(t)
  }

  /** Every record of the document carries such tags, as every record an upload writes does. */
  ghost predicate WellTagged(fs: Folders) {
    forall f, img :: f in fs && img in fs[f] ==> ImageTagged(img)
  }

  /** The records an upload pushes carry the normalised tags of the tag text. */
  lemma NewRecordsTagged(files: seq<FileInput>, stamps: seq<Stamp>, tagsText: string)
    requires |stamps| == |files|
    ensures forall img :: img in NewRecords(files, stamps, NormalizeTags(tagsText)) ==> ImageTagged(img)
  {
    var tags := NormalizeTags(tagsText);
    var pushed := NewRecords(files, stamps, tags);
    NewRecordsFollowFiles(files, stamps, tags);
    forall img | img in pushed ensures ImageTagged(img) {
      var k :| 0 <= k < |pushed| && pushed[k] == img;
      assert img.tags == tags;
    }
  }

  /** Appending well-tagged records to a folder keeps the document well tagged. */
  lemma AppendKeepsTagged(fs: Folders, folder: string, added: seq<Image>)
    requires WellTagged(fs) && folder in fs
    requires forall img :: img in added ==> ImageTagged(img)
    ensures WellTagged(fs[folder := fs[folder] + added])
  {
    var g := fs[folder := fs[folder] + added];
    forall f, img | f in g && img in g[f] ensures ImageTagged(img) {
      if f == folder && img !in fs[folder] {
        assert img in added;
      }
    }
  }

  /** An upload into an existing folder keeps the document well tagged. */
  lemma UploadKeepsTagged(fs: Folders, folder: string, files: seq<FileInput>, stamps: seq<Stamp>, tagsText: string)
    requires folder in fs && |stamps| == |files|
    ensures WellTagged(fs) ==> WellTagged(fs[folder := fs[folder] + NewRecords(files, stamps, NormalizeTags(tagsText))])
  {
    if WellTagged(fs) {
      NewRecordsTagged(files, stamps, tagsText);
      AppendKeepsTagged(fs, folder, NewRecords(files, stamps, NormalizeTags(tagsText)));
    }
  }

  /** A new, empty folder keeps the document well tagged. */
  lemma AddFolderKeepsTagged(fs: Folders, name: string)
    ensures WellTagged(fs) ==> WellTagged(fs[name := []])
  {
    if WellTagged(fs) {
      var g := fs[name := []];
      forall f, img | f in g && img in g[f] ensures ImageTagged(img) {
        assert f != name && img in fs[f];
      }
    }
  }

  /** Deleting records keeps the document well tagged. */
  lemma RemoveKeepsTagged(fs: Folders, folder: string, id: string)
    ensures WellTagged(fs) ==> WellTagged(fs[folder := RemoveId(Lookup(fs, folder), id)])
  {
    if WellTagged(fs) {
      var g := fs[folder := RemoveId(Lookup(fs, folder), id)];
      forall f, img | f in g && img in g[f] ensures ImageTagged(img) {
        if f == folder {
          assert img in Lookup(fs, folder);
        }
      }
    }
  }

  /** A chip shown for a tag of a record in a well-tagged document satisfies
      what the tag-click lemmas require: lower-casing it gives a tag. */
  lemma StoredTagClickable(fs: Folders, f: string, img: Image, t: string)
    requires WellTagged(fs) && f in fs && img in fs[f] && t in img.tags
    ensures IsTag(Lower(t))
  {
    assert ImageTagged(img);
  }

  /** The names every plain JavaScript object inherits from `Object.prototype`. */
  const InheritedNames: set<string> := {
    "constructor", "hasOwnProperty", "isPrototypeOf", "propertyIsEnumerable",
    "toLocaleString", "toString", "valueOf", "__proto__",
    "__defineGetter__", "__defineSetter__", "__lookupGetter__", "__lookupSetter__"
  }

  /** The create-folder guard as written: `state.folders[name]` is truthy for a
      folder and also for every inherited name, which is refused as a duplicate. */
  function CreateOutcomeAsWritten(folders: Folders, raw: string): (r: CreateOutcome)
    ensures r == EmptyName <==> SanitizeFolderName(raw) == ""
    ensures r == AlreadyExists <==>
      SanitizeFolderName(raw) != "" && (SanitizeFolderName(raw) in folders || SanitizeFolderName(raw) in InheritedNames)
    ensures r.Created? ==> r.name == SanitizeFolderName(raw) && r.name !in folders && r.name !in InheritedNames
  {
    var name := SanitizeFolderName(raw);
    if name == "" then EmptyName
    else if name in folders || name in InheritedNames then AlreadyExists
    else Created(name)
  }

  /** The create-folder decision with the guard meaning what it evidently means:
      a name is refused as a duplicate exactly when a folder of that name exists. */
  function CreateOutcomeFor(folders: Folders, raw: string): (r: CreateOutcome)
    ensures r == EmptyName <==> SanitizeFolderName(raw) == ""
    ensures r == AlreadyExists <==> SanitizeFolderName(raw) != "" && SanitizeFolderName(raw) in folders
    ensures r.Created? ==> r.name == SanitizeFolderName(raw) && r.name !in folders
  {
    var name := SanitizeFolderName(raw);
    if name == "" then EmptyName
    else if name in folders then AlreadyExists
    else Created(name)
  }

  /** On the default document, "toString" is refused although no such folder exists. */
  lemma InheritedNameRefused()
    ensures "toString" !in DefaultFolders()
    ensures CreateOutcomeAsWritten(DefaultFolders(), "toString") == AlreadyExists
  {
    SanitizeKeepsCleanName("toString");
  }

  /** With the corrected guard the same name becomes a folder. */
  lemma InheritedNameAccepted()
    ensures CreateOutcomeFor(DefaultFolders(), "toString") == Created("toString")
  {
    SanitizeKeepsCleanName("toString");
  }

  /** The page's `state`: the folders document, and what the store holds. */
  class AppState {
    var folders: Folders
    var stored: Stored

    /** The store holds what is in memory, so a reload would show the same folders. */
    predicate Synced()
      reads this
    {
      LoadState(stored) == folders
    }

    /** `let state = loadState()` over what the store holds. */
    constructor Open(initial: Stored)
      ensures stored == initial && folders == LoadState(initial)
      ensures Synced()
    {
      stored := initial;
      folders := LoadState(initial);
    }

    /** `saveState()`. */
    method Save()
      modifies this`stored
      ensures stored == Saved(folders)
      ensures Synced()
    {
      stored := Saved(folders);
    }

    /** The create-folder handler: a sanitised name that is not empty and not
        yet a folder becomes a new, empty folder; otherwise nothing changes. */
    method CreateFolder(raw: string) returns (outcome: CreateOutcome)
      requires Synced()
      modifies this
      ensures Synced()
      ensures outcome == CreateOutcomeFor(old(folders), raw)
      ensures old(WellTagged(folders)) ==> WellTagged(folders)
      ensures !outcome.Created? ==> folders == old(folders) && stored == old(stored)
      ensures outcome.Created? ==>
        && folders == old(folders)[outcome.name := []]
        && folders.Keys == old(folders).Keys + {outcome.name}
        && stored == Saved(folders)
    {
      var name := SanitizeFolderName(raw);
      if name == "" {
        return EmptyName;
      }
      if name in folders {
        return AlreadyExists;
      }
      AddFolderKeepsTagged(folders, name);
      folders := folders[name := []];
      Save();
      outcome := Created(name);
    }

    /** `handleFilesUpload`: with a folder selected and files given, the records
        of the accepted files are appended to that folder in file order and the
        document is saved; every other folder is untouched. */
    method HandleFilesUpload(folder: string, tagsText: string, files: seq<FileInput>, stamps: seq<Stamp>)
      returns (outcome: UploadOutcome)
      requires |stamps| == |files|
      requires Synced()
      modifies this
      ensures Synced()
      ensures old(WellTagged(folders)) ==> WellTagged(folders)
      ensures folder == "" ==>
        outcome == NoFolderSelected && folders == old(folders) && stored == old(stored)
      ensures folder != "" && files == [] ==>
        outcome == NoFiles && folders == old(folders) && stored == old(stored)
      ensures folder != "" && files != [] && folder !in old(folders) && AcceptedFiles(files) != [] ==>
        outcome == MissingFolder && folders == old(folders) && stored == old(stored)
      ensures folder != "" && files != [] && folder !in old(folders) && AcceptedFiles(files) == [] ==>
        outcome == Uploaded && folders == old(folders) && stored == Saved(folders)
      ensures folder != "" && files != [] && folder in old(folders) ==>
        && outcome == Uploaded
        && folders == old(folders)[folder := old(folders)[folder] + NewRecords(files, stamps, NormalizeTags(tagsText))]
        && stored == Saved(folders)
    {
      if folder == "" {
        return NoFolderSelected;
      }
      if files == [] {
        return NoFiles;
      }
      var tags := NormalizeTags(tagsText);
      var pushed, stopped := CollectUploads(files, stamps, tags, folder in folders);
      if stopped {
        return MissingFolder;
      }
      if folder in folders {
        UploadKeepsTagged(folders, folder, files, stamps, tagsText);
        folders := folders[folder := folders[folder] + pushed];
      }
      Save();
      outcome := Uploaded;
    }

    /** `deleteImage`: unless the confirmation is declined, the folder keeps
        exactly its records with another id, in order, and the document is
        saved; a folder that was not there is created empty. */
    method DeleteImage(folder: string, id: string, confirmed: bool)
      requires Synced()
      modifies this
      ensures Synced()
      ensures old(WellTagged(folders)) ==> WellTagged(folders)
      ensures !confirmed ==> folders == old(folders) && stored == old(stored)
      ensures confirmed ==>
        && folders == old(folders)[folder := RemoveId(Lookup(old(folders), folder), id)]
        && stored == Saved(folders)
    {
      if !confirmed {
        return;
      }
      RemoveKeepsTagged(folders, folder, id);
      folders := folders[folder := RemoveId(Lookup(folders, folder), id)];
      Save();
    }

    /** The reset handler: unless declined, the store is cleared and the
        default document loaded. */
    method Reset(confirmed: bool)
      requires Synced()
      modifies this
      ensures Synced()
      ensures !confirmed ==> folders == old(folders) && stored == old(stored)
      ensures confirmed ==> stored == Absent && folders == DefaultFolders()
      ensures confirmed ==> WellTagged(folders)
    {
      if !confirmed {
        return;
      }
      stored := Absent;
      folders := LoadState(stored);
    }

    /** `getAllImages`: every record of every folder, annotated with its folder,
        folder by folder in listing order, then sorted newest first. */
    method AllImages() returns (out: seq<Entry>)
      ensures out == SortNewestFirst(Flatten(folders, FolderNames(folders)))
      ensures NewestFirst(out)
      ensures forall f, img :: multiset(out)[Entry(f, img)] == if f in folders then multiset(folders[f])[img] else 0
    {
      var names := FolderNames(folders);
      out := Gather(folders, names);
      out := SortNewestFirst(out);
      TimelineHoldsEveryRecord(folders, out);
    }
  }

  /** The loop of `handleFilesUpload`: the records of the image files, in file
      order. With no folder to push into, the first image file stops it. */
  method CollectUploads(files: seq<FileInput>, stamps: seq<Stamp>, tags: seq<string>, folderExists: bool)
    returns (pushed: seq<Image>, stopped: bool)
    requires |stamps| == |files|
    ensures stopped <==> !folderExists && AcceptedFiles(files) != []
    ensures !stopped ==> pushed == NewRecords(files, stamps, tags)
  {
    pushed := [];
    var i := 0;
    assert files[..0] == [] && stamps[..0] == [];
    while i < |files|
      invariant 0 <= i <= |files|
      invariant pushed == NewRecords(files[..i], stamps[..i], tags)
      invariant !folderExists ==> AcceptedFiles(files[..i]) == []
    {
      NewRecordsStep(files, stamps, tags, i);
      if IsImageType(files[i].mimeType) {
        if !folderExists {
          AcceptedPrefix(files, i + 1);
          return pushed, true;
        }
        pushed := pushed + [Record(files[i], stamps[i], tags)];
      }
      i := i + 1;
    }
    assert files[..i] == files && stamps[..i] == stamps;
    stopped := false;
  }

  /** The two nested loops of `getAllImages`: for each name in turn, push every
      record of that folder annotated with the name. */
  method Gather(fs: Folders, names: seq<string>) returns (out: seq<Entry>)
    requires forall n :: n in names ==> n in fs
    ensures out == Flatten(fs, names)
  {
    out := [];
    var i := 0;
    while i < |names|
      invariant 0 <= i <= |names|
      invariant out == Flatten(fs, names[..i])
    {
      var folder := names[i];
      var images := fs[folder];
      ghost var done := out;
      var j := 0;
      while j < |images|
        invariant 0 <= j <= |images|
        invariant out == done + Annotate(folder, images[..j])
      {
        AnnotateStep(folder, images, j);
        out := out + [Entry(folder, images[j])];
        j := j + 1;
      }
      assert images[..j] == images;
      FlattenStep(fs, names, i);
      i := i + 1;
    }
    assert names[..i] == names;
  }

  /** The sorted, flattened list holds each record of folder `f` as often as `f`
      holds it, annotated with `f`, and nothing else. */
  lemma TimelineHoldsEveryRecord(folders: Folders, out: seq<Entry>)
    requires out == SortNewestFirst(Flatten(folders, FolderNames(folders)))
    ensures forall f, img :: multiset(out)[Entry(f, img)] == if f in folders then multiset(folders[f])[img] else 0
  {
    var names := FolderNames(folders);
    assert NoDup(names);
    forall f, img
      ensures multiset(out)[Entry(f, img)] == if f in folders then multiset(folders[f])[img] else 0
    {
      FlattenCount(folders, names, f, img);
    }
  }

  lemma AnnotateStep(folder: string, images: seq<Image>, j: nat)
    requires j < |images|
    ensures Annotate(folder, images[..j + 1]) == Annotate(folder, images[..j]) + [Entry(folder, images[j])]
  {
    assert images[..j + 1][..j] == images[..j];
  }

  lemma FlattenStep(folders: Folders, names: seq<string>, i: nat)
    requires i < |names|
    requires forall n :: n in names ==> n in folders
    ensures Flatten(folders, names[..i + 1]) == Flatten(folders, names[..i]) + Annotate(names[i], folders[names[i]])
  {
    assert names[..i + 1][..i] == names[..i];
  }

  /** An accepted file in a prefix is an accepted file of the whole list. */
  lemma AcceptedPrefix(files: seq<FileInput>, n: nat)
    requires n <= |files|
    ensures AcceptedFiles(files[..n]) != [] ==> AcceptedFiles(files) != []
  {
    if AcceptedFiles(files[..n]) != [] {
      var f := AcceptedFiles(files[..n])[0];
      assert f in files[..n];
    }
  }
}
