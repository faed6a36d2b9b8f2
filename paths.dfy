/** The key and name arithmetic of backend/main.py: the listing prefix of
    `list_files`, the folder-marker key of `create_folder`, the upload key
    of `get_upload_url`, and the display name and file type that
    `list_files` derives from an object key. */
module Paths {
  import opened PyStr

  datatype Option<T> = None | Some(value: T)

  /** The prefix `list_files` lists under: a non-empty path gets a trailing
      '/', and "/" alone means the root "". */
  function ListingPrefix(path: string): (prefix: string)
    ensures prefix == "" || EndsWith(prefix, "/")
    ensures path == "/" ==> prefix == ""
    ensures path != "" && !EndsWith(path, "/") ==> prefix == path + "/"
    ensures prefix == path <==> path == "" || (EndsWith(path, "/") && path != "/")
  {
    var p := if path != "" && !EndsWith(path, "/") then path + "/" else path;
    if p == "/" then "" else p
  }

  /** The key of the empty object that marks a folder: the path with a
      trailing '/' added when it lacks one. */
  function FolderKey(path: string): (key: string)
    ensures EndsWith(key, "/")
    ensures StartsWith(key, path)
    ensures key == path <==> EndsWith(path, "/")
    ensures key != path ==> key == path + "/"
  {
    if EndsWith(path, "/") then path else path + "/"
  }

  /** Normalising a listing prefix twice is the same as once. */
  lemma ListingPrefixIdempotent(path: string)
    ensures ListingPrefix(ListingPrefix(path)) == ListingPrefix(path)
  {
  }

  /** Normalising a folder key twice is the same as once. */
  lemma FolderKeyIdempotent(path: string)
    ensures FolderKey(FolderKey(path)) == FolderKey(path)
  {
  }

  /** The request field `prefix`, which defaults to "". */
  function UploadPrefix(data: map<string, string>): string {
    if "prefix" in data then data["prefix"] else ""
  }

  /** The key `get_upload_url` presigns: the prefix and the file name run
      together with no separator put between them; a request without a
      file name has no key. */
  function UploadKey(data: map<string, string>): (key: Option<string>)
    ensures key.None? <==> "filename" !in data
    ensures key.Some? ==> StartsWith(key.value, UploadPrefix(data))
    ensures key.Some? ==> EndsWith(key.value, data["filename"])
    ensures key.Some? ==> |key.value| == |UploadPrefix(data)| + |data["filename"]|
  {
    if "filename" in data then Some(UploadPrefix(data) + data["filename"]) else None
  }

  /** Display name of a file in `list_files`, as written: every occurrence
      of the prefix is removed from the key. */
  function FileName(key: string, prefix: string): (name: string)
    ensures |name| <= |key|
    ensures prefix == "" ==> name == key
  {
    ReplaceEmptyByEmpty(key);
    Replace(key, prefix, "")
  }

  /** Display name of a folder in `list_files`, as written: every occurrence
      of the prefix is removed from the key, then leading and trailing '/'. */
  function FolderNameAsWritten(key: string, prefix: string): (name: string)
    ensures name == [] || (name[0] != '/' && name[|name| - 1] != '/')
    ensures |name| <= |key|
  {
    Strip(Replace(key, prefix, ""), '/')
  }

  /** The key with a leading prefix removed; the listing only hands out
      keys that start with the prefix. */
  function RemovePrefix(key: string, prefix: string): (rest: string)
    ensures StartsWith(key, prefix) ==> key == prefix + rest
    ensures !StartsWith(key, prefix) ==> rest == key
  {
    if StartsWith(key, prefix) then key[|prefix|..] else key
  }

  /** Display name of a folder with the prefix removed once, at the front,
      then leading and trailing '/'. */
  function FolderName(key: string, prefix: string): (name: string)
    ensures name == [] || (name[0] != '/' && name[|name| - 1] != '/')
    ensures StartsWith(key, prefix) ==> Contains(key[|prefix|..], name)
  {
    Strip(RemovePrefix(key, prefix), '/')
  }

  /** A name with no '/' and one trailing '/' strips back to the name. */
  lemma StripChildName(name: string)
    requires '/' !in name
    ensures Strip(name + "/", '/') == name
  {
    var s := name + "/";
    if name == [] {
      assert s[1..] == [];
      assert StripLeading(s, '/') == StripLeading(s[1..], '/') == [];
    } else {
      assert s[0] == name[0];
      assert StripLeading(s, '/') == s;
      assert s[..|s| - 1] == name;
      assert name[|name| - 1] in name;
      assert StripTrailing(s, '/') == StripTrailing(name, '/') == name;
    }
  }

  /** A key of a direct child file, the listing prefix followed by a name
      without '/', gets that name as its display name. */
  lemma FileNameIsRest(prefix: string, rest: string)
    requires prefix == "" || EndsWith(prefix, "/")
    requires '/' !in rest
    ensures FileName(prefix + rest, prefix) == rest
  {
    if prefix == "" {
      assert prefix + rest == rest;
      ReplaceEmptyByEmpty(rest);
    } else {
      ReplaceLeading(prefix, rest, "");
      forall i | 0 <= i <= |rest| ensures !StartsWith(rest[i..], prefix) {
        if i + |prefix| <= |rest| {
          assert prefix[|prefix| - 1] == '/';
          assert rest[i + |prefix| - 1] != '/';
          assert rest[i..][..|prefix|][|prefix| - 1] == rest[i + |prefix| - 1];
        }
      }
      ReplaceAbsent(rest, prefix, "");
    }
  }

  /** A direct child folder, the listing prefix followed by a name without
      '/' and one '/', gets that name as its display name. */
  lemma FolderNameOfChild(prefix: string, name: string)
    requires '/' !in name
    ensures FolderName(prefix + name + "/", prefix) == name
  {
    var key := prefix + name + "/";
    assert key[..|prefix|] == prefix;
    assert key[|prefix|..] == name + "/";
    StripChildName(name);
  }

  /** The as-written folder name loses the child's name when a top-level
      folder `q/` holds a sub-folder also called `q`: the key `q/q/`
      contains the prefix `q/` twice and both copies are removed. The
      corrected `FolderName` keeps it. */
  lemma FolderNameAsWrittenDropsRepeat(q: string)
    requires q != [] && '/' !in q
    ensures FolderNameAsWritten(q + "/" + q + "/", q + "/") == ""
    ensures FolderName(q + "/" + q + "/", q + "/") == q
  {
    var p := q + "/";
    assert q + "/" + q + "/" == p + p;
    ReplaceLeading(p, p, "");
    assert p == p + [];
    ReplaceLeading(p, [], "");
    assert Replace([], p, "") == [];
    FolderNameOfChild(p, q);
  }

  datatype FileKind = Video | Doc

  /** The type of a listed file: a video when the lower-cased key ends in
      ".mp4" or ".mp3", a document otherwise. */
  function FileType(key: string): (kind: FileKind)
    ensures EndsWith(key, ".mp4") || EndsWith(key, ".mp3") ==> kind == Video
    ensures EndsWith(key, ".MP4") || EndsWith(key, ".MP3") ==> kind == Video
    ensures |key| < 4 ==> kind == Doc
  {
    var k := Lower(key);
    if EndsWith(k, ".mp4") || EndsWith(k, ".mp3") then Video else Doc
  }

  /** The file type depends only on the last four characters of the key,
      in either case: '.', 'm' or 'M', 'p' or 'P', then '4' or '3'. */
  lemma FileTypeByExtension(key: string)
    ensures FileType(key) == Video <==>
      && |key| >= 4
      && key[|key| - 4] == '.'
      && key[|key| - 3] in "mM"
      && key[|key| - 2] in "pP"
      && key[|key| - 1] in "43"
  {
  }
}
