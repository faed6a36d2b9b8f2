/** The read-only endpoints of backend/main.py: `list_files`, which turns
    the store's listing into folder and file records, and `get_upload_url`.
    The store's listing and its presigning are passed in: `entries` is what
    the store lists under the prefix, `presign` maps a key to the URL the
    store signs for it. */
module Handlers {
  import opened PyStr
  import opened UrlRewrite
  import opened Paths

  /** One object of a non-recursive listing: its key and whether it stands
      for a folder (a common prefix ending in '/'). */
  datatype Entry = Entry(key: string, isDir: bool)

  datatype FolderItem = FolderItem(name: string, path: string)

  datatype FileItem = FileItem(name: string, fullPath: string, url: string, kind: FileKind)

  function FolderOf(key: string, prefix: string): FolderItem {
    FolderItem(FolderName(key, prefix), key)
  }

  function FileOf(key: string, prefix: string, presign: string -> string, external: string): FileItem {
    FileItem(FileName(key, prefix), key, FixUrl(presign(key), external), FileType(key))
  }

  /** The folder records for `entries`, in listing order. */
  function FoldersOf(entries: seq<Entry>, prefix: string): seq<FolderItem>
    decreases |entries|
  {
    if entries == [] then []
    else
      var e := entries[|entries| - 1];
      FoldersOf(entries[..|entries| - 1], prefix) + (if e.isDir then [FolderOf(e.key, prefix)] else [])
  }

  /** The file records for `entries`, in listing order. */
  function FilesOf(entries: seq<Entry>, prefix: string, presign: string -> string, external: string): seq<FileItem>
    decreases |entries|
  {
    if entries == [] then []
    else
      var e := entries[|entries| - 1];
      FilesOf(entries[..|entries| - 1], prefix, presign, external)
        + (if e.isDir then [] else [FileOf(e.key, prefix, presign, external)])
  }

  /** `list_files`: normalise the path to the listing prefix, then walk the
      listing once, appending a folder record for each folder entry and a
      file record for each other entry. */
  method ListFiles(path: string, entries: seq<Entry>, presign: string -> string, external: string)
    returns (folders: seq<FolderItem>, files: seq<FileItem>)
    ensures folders == FoldersOf(entries, ListingPrefix(path))
    ensures files == FilesOf(entries, ListingPrefix(path), presign, external)
  {
    var prefix := path;
    if prefix != "" && !EndsWith(prefix, "/") {
      prefix := prefix + "/";
    }
    if prefix == "/" {
      prefix := "";
    }
    files := [];
    folders := [];
    var i := 0;
    while i < |entries|
      invariant 0 <= i <= |entries|
      invariant folders == FoldersOf(entries[..i], prefix)
      invariant files == FilesOf(entries[..i], prefix, presign, external)
    {
      var obj := entries[i];
      assert entries[..i + 1][..i] == entries[..i];
      if obj.isDir {
        folders := folders + [FolderItem(FolderName(obj.key, prefix), obj.key)];
      } else {
        var rawUrl := presign(obj.key);
        files := files + [FileItem(FileName(obj.key, prefix), obj.key, FixUrl(rawUrl, external), FileType(obj.key))];
      }
      i := i + 1;
    }
    assert entries[..i] == entries;
  }

  /** Every entry becomes exactly one record: a folder or a file. */
  lemma {:induction false} ListingPartition(entries: seq<Entry>, prefix: string, presign: string -> string, external: string)
    ensures |FoldersOf(entries, prefix)| + |FilesOf(entries, prefix, presign, external)| == |entries|
    decreases |entries|
  {
    if entries != [] {
      ListingPartition(entries[..|entries| - 1], prefix, presign, external);
    }
  }

  /** The folder paths are exactly the keys of the folder entries and the
      files' full paths exactly the keys of the other entries. */
  lemma {:induction false} ListingKeys(entries: seq<Entry>, prefix: string, presign: string -> string, external: string)
    ensures forall f :: f in FoldersOf(entries, prefix) ==> Entry(f.path, true) in entries
    ensures forall e :: e in entries && e.isDir ==> FolderOf(e.key, prefix) in FoldersOf(entries, prefix)
    ensures forall f :: f in FilesOf(entries, prefix, presign, external) ==> Entry(f.fullPath, false) in entries
    ensures forall e :: e in entries && !e.isDir ==> FileOf(e.key, prefix, presign, external) in FilesOf(entries, prefix, presign, external)
    decreases |entries|
  {
    if entries != [] {
      var init := entries[..|entries| - 1];
      ListingKeys(init, prefix, presign, external);
      assert entries == init + [entries[|entries| - 1]];
    }
  }

  /** Every file URL handed out is rewritten: once an external endpoint is
      configured, none of them still points at the internal store. */
  lemma {:induction false} ListingUrlsRewritten(entries: seq<Entry>, prefix: string, presign: string -> string, external: string)
    requires external != ""
    ensures forall f :: f in FilesOf(entries, prefix, presign, external) ==> !Contains(f.url, InternalBase)
    decreases |entries|
  {
    if entries != [] {
      ListingUrlsRewritten(entries[..|entries| - 1], prefix, presign, external);
    }
  }

  /** An entry of a non-recursive listing under a prefix: a file key is the
      prefix followed by a name without '/', a folder key the prefix
      followed by a name without '/' and one '/'. */
  ghost predicate DirectChild(e: Entry, prefix: string) {
    exists name :: '/' !in name && e.key == prefix + name + (if e.isDir then "/" else "")
  }

  ghost predicate DirectChildren(entries: seq<Entry>, prefix: string) {
    forall e :: e in entries ==> DirectChild(e, prefix)
  }

  /** The record of one direct child gives back its key from the prefix and
      its display name. */
  lemma EntryNameRoundTrip(e: Entry, prefix: string, presign: string -> string, external: string)
    requires prefix == "" || EndsWith(prefix, "/")
    requires DirectChild(e, prefix)
    ensures e.isDir ==> prefix + FolderOf(e.key, prefix).name + "/" == e.key
    ensures !e.isDir ==> prefix + FileOf(e.key, prefix, presign, external).name == e.key
  {
    var name :| '/' !in name && e.key == prefix + name + (if e.isDir then "/" else "");
    if e.isDir {
      FolderNameOfChild(prefix, name);
    } else {
      assert e.key == prefix + name;
      FileNameIsRest(prefix, name);
    }
  }

  /** In a non-recursive listing under a normalised prefix, the prefix
      followed by a record's display name gives back its key (with the
      trailing '/' for a folder). */
  lemma {:induction false} ListingNamesRoundTrip(entries: seq<Entry>, path: string, presign: string -> string, external: string)
    requires DirectChildren(entries, ListingPrefix(path))
    ensures forall f :: f in FoldersOf(entries, ListingPrefix(path)) ==> ListingPrefix(path) + f.name + "/" == f.path
    ensures forall f :: f in FilesOf(entries, ListingPrefix(path), presign, external) ==> ListingPrefix(path) + f.name == f.fullPath
    decreases |entries|
  {
    var prefix := ListingPrefix(path);
    if entries != [] {
      var init, e := entries[..|entries| - 1], entries[|entries| - 1];
      assert forall x :: x in init ==> x in entries;
      ListingNamesRoundTrip(init, path, presign, external);
      EntryNameRoundTrip(e, prefix, presign, external);
    }
  }

  /** The answer of `get_upload_url`: the rewritten upload URL and the key
      it uploads to. */
  datatype UploadTicket = UploadTicket(url: string, fullPath: string)

  /** `get_upload_url`, with the request body as a map; a body without
      "filename" is refused. */
  function GetUploadUrl(data: map<string, string>, presignPut: string -> string, external: string): (r: Option<UploadTicket>)
    ensures r.None? <==> "filename" !in data
    ensures r.Some? ==> Some(r.value.fullPath) == UploadKey(data)
    ensures r.Some? ==> r.value.url == FixUrl(presignPut(r.value.fullPath), external)
    ensures r.Some? && external != "" ==> !Contains(r.value.url, InternalBase)
  {
    match UploadKey(data)
    case None => None
    case Some(fullPath) => Some(UploadTicket(FixUrl(presignPut(fullPath), external), fullPath))
  }

  /** A file uploaded under a normalised listing prefix with a file name
      without '/': once the store lists the uploaded key as a file under
      that prefix, the listing of the prefix holds a file record for that
      key whose display name is the file name. */
  lemma UploadThenList(data: map<string, string>, presignPut: string -> string, entries: seq<Entry>,
                       presign: string -> string, external: string)
    requires "filename" in data && '/' !in data["filename"]
    requires UploadPrefix(data) == ListingPrefix(UploadPrefix(data))
    requires Entry(UploadPrefix(data) + data["filename"], false) in entries
    ensures GetUploadUrl(data, presignPut, external).Some?
    ensures exists f ::
              && f in FilesOf(entries, ListingPrefix(UploadPrefix(data)), presign, external)
              && f.fullPath == GetUploadUrl(data, presignPut, external).value.fullPath
              && f.name == data["filename"]
  {
    var prefix, key := UploadPrefix(data), UploadPrefix(data) + data["filename"];
    ListingKeys(entries, prefix, presign, external);
    FileNameIsRest(prefix, data["filename"]);
    var f := FileOf(key, prefix, presign, external);
    assert f in FilesOf(entries, prefix, presign, external);
  }
}
