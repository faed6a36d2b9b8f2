# pan backend: URL rewriting, key normalisation and deletion, in Dafny

`backend/main.py` is a small HTTP front over one object-store bucket. Most
of it hands requests on to the store. The part modelled here is the logic
between the requests and the store:

- `fix_url` rewrites presigned URLs that name the store's cluster-internal
  address `http://minio:9000` so that they go through the proxy at
  `http://<ip>:8080/minio-api`. The `<ip>` is the part of
  `EXTERNAL_ENDPOINT` before its first `:`.
- `list_files` normalises the requested path into a listing prefix. It
  then walks the store's non-recursive listing. Each folder entry becomes a
  `{name, path}` record and each other entry a `{name, full_path, url,
  type}` record.
- `create_folder` puts an empty marker object under the path with a `/`
  appended if it lacks one.
- `get_upload_url` presigns `prefix + filename`.
- `delete_items` removes, for each requested path in order, every key under
  it when it ends in `/`, and the exact key otherwise.

Modules, one per concern:

- `PyStr` (`pystr.dfy`) states the Python string operations the code uses
  (`in`, `replace`, `split(":")[0]`, `strip("/")`, `lower`, `endswith`)
  over `seq<char>`. Its `StartsWith` is the store's prefix match behind
  `list_objects(prefix=...)`. It also proves when `replace` leaves no
  occurrence of its pattern behind.
- `UrlRewrite` (`url_rewrite.dfy`) models `fix_url`.
- `Paths` (`paths.dfy`) models the listing prefix, the folder key, the
  upload key, the display names and the file type.
- `Handlers` (`handlers.dfy`) models the loop in `list_files` as a method
  and `get_upload_url` as a function.
- `Store` (`store.dfy`) models the bucket as a class holding a set of keys.
  `create_folder` and `delete_items` are methods on it that change that set
  in place. `DeleteAll` is the specification of deletion.

The external store is abstracted. The listing `list_files` walks is a
parameter (`entries`). Presigning is a function parameter from key to URL.
`EXTERNAL_ENDPOINT` is a string parameter. The recursive listing used by
`delete_items` is the set of keys that start with the path.

`backend/main.py` has no login, tokens or tiers, and neither does the
model.

## Model

| member | source | states |
|---|---|---|
| `PyStr.BeforeFirst` | backend/main.py:47 | `split(c)[0]` is a prefix of the input, has no `c`, and is followed in the input by `c` or by the end |
| `PyStr.StripLeading` | backend/main.py:67 | `lstrip('/')` keeps a suffix of the input; everything dropped is `/`; the result does not start with `/` |
| `PyStr.StripTrailing` | backend/main.py:67 | `rstrip('/')` keeps a prefix of the input; everything dropped is `/`; the result does not end with `/` |
| `PyStr.Lower` | backend/main.py:77 | `lower()` keeps the length; no `A`-`Z` is left; every character outside `A`-`Z` is kept; an upper-case letter becomes the lower-case letter at the same place in the alphabet |
| `PyStr.LowerIdempotent` | backend/main.py:77 | lower-casing twice is the same as once |
| `PyStr.Replace` | backend/main.py:52 | `replace` by the empty string never lengthens the string, and replacing by a string of the pattern's length keeps the length |
| `PyStr.ReplaceLeftmost` | backend/main.py:52 | the leftmost occurrence of a non-empty pattern is the one replaced: the text before it is kept as it is, and replacing carries on with the text after it |
| `PyStr.ReplaceBySelf` | backend/main.py:52 | replacing a non-empty pattern by itself gives back the string, so nothing outside the occurrences moves or changes |
| `PyStr.Strip` | backend/main.py:67 | `strip('/')` returns the piece of the input that is left once the `/`s at its front and at its back are dropped: there is a position where it sits in the input with only `/` before and after it, and it neither starts nor ends with `/`; the whole input comes back when it has no `/` |
| `PyStr.ReplaceAbsent` | backend/main.py:52 | `replace` of a pattern that does not occur returns the string unchanged |
| `PyStr.ReplaceEmptyByEmpty` | backend/main.py:71 | `replace("", "")` returns the string unchanged, as at the root listing where the prefix is empty |
| `PyStr.ReplaceRemovesAll` | backend/main.py:52 | under the stated conditions on the replacement, no occurrence of the pattern is left after `replace` |
| `UrlRewrite.ExternalIp` | backend/main.py:47 | the IP is the longest prefix of `EXTERNAL_ENDPOINT` without `:` |
| `UrlRewrite.FixUrl` | backend/main.py:43-54 | the URL is returned unchanged when `EXTERNAL_ENDPOINT` is empty or when it lacks `minio:9000`; with an endpoint set, the result never contains `http://minio:9000` |
| `UrlRewrite.ProxyRewriteRemovesInternal` | backend/main.py:52 | replacing `http://minio:9000` by `http://<ip>:8080/minio-api` leaves no `http://minio:9000`, for any IP without `:` |
| `UrlRewrite.FixUrlIdempotent` | backend/main.py:43-54 | applying `fix_url` twice gives the same URL as applying it once |
| `UrlRewrite.FixUrlHostWithoutScheme` | backend/main.py:51-52 | a URL with `minio:9000` but without `http://minio:9000` comes back unchanged |
| `UrlRewrite.FixUrlOneBase` | backend/main.py:44-54 | a URL holding `http://minio:9000` once, anywhere in it, comes back with that occurrence replaced by `http://<ip>:8080/minio-api` and the text before and after it unchanged |
| `UrlRewrite.FixUrlPresigned` | backend/main.py:47-52 | `http://minio:9000` followed by a path and query comes back as `http://<ip>:8080/minio-api` followed by the same path and query, where `<ip>` is the endpoint up to its first `:` |
| `Paths.ListingPrefix` | backend/main.py:58-60 | the prefix is `""` or ends in `/`; `"/"` gives `""`; a non-empty path without a trailing `/` gets exactly one; the path is kept exactly when it is already `""` or ends in `/` and is not `"/"` |
| `Paths.ListingPrefixIdempotent` | backend/main.py:58-60 | normalising the listing prefix again changes nothing |
| `Paths.FolderKey` | backend/main.py:85-86 | the marker key ends in `/`, starts with the path, and equals the path exactly when the path already ends in `/`; otherwise it is the path plus one `/` |
| `Paths.FolderKeyIdempotent` | backend/main.py:85-86 | normalising a folder key again changes nothing |
| `Paths.UploadKey` | backend/main.py:95-97 | there is no key exactly when `filename` is missing; the key starts with the prefix (default `""`), ends with the file name, and is exactly as long as both together, so no separator is inserted |
| `Paths.RemovePrefix` | backend/main.py:67 | a key that starts with the prefix is the prefix followed by the result; any other key is returned as it is |
| `Paths.FileName` | backend/main.py:71 | the file name is never longer than the key, and is the key itself at the root, where the prefix is `""`; `Paths.FileNameIsRest` gives the name of a direct child |
| `Paths.FolderNameAsWritten` | backend/main.py:67 | as written, the folder name neither starts nor ends with `/` and is never longer than the key; `Paths.FolderNameAsWrittenDropsRepeat` shows where it goes wrong |
| `Paths.FolderName` | backend/main.py:67 | corrected: the name neither starts nor ends with `/` and is a piece of the key after the prefix; `Paths.FolderNameOfChild` gives the name of a direct child |
| `Paths.FileType` | backend/main.py:77 | a key ending in `.mp4`, `.mp3`, `.MP4` or `.MP3` is a video, a key shorter than four characters a document; `Paths.FileTypeByExtension` gives the full rule |
| `Paths.FileNameIsRest` | backend/main.py:71 | for a file directly under a prefix that is `""` or ends in `/`, removing every occurrence of the prefix leaves exactly the file's own name |
| `Paths.FolderNameOfChild` | backend/main.py:67 | the corrected folder name of `prefix + name + "/"`, for a name without `/`, is that name |
| `Paths.FolderNameAsWrittenDropsRepeat` | backend/main.py:67 | as written, the folder `q/q/` listed under `q/` is named `""`; the corrected name is `q` |
| `Paths.FileTypeByExtension` | backend/main.py:77 | a file is a video exactly when its key ends in `.`, `m`/`M`, `p`/`P`, `4`/`3`; otherwise it is a document |
| `Handlers.ListFiles` | backend/main.py:57-79 | the walk over the listing returns exactly the folder records and the file records of the entries, in listing order, under the normalised prefix |
| `Handlers.ListingPartition` | backend/main.py:63-78 | every listed entry becomes exactly one record, a folder or a file |
| `Handlers.ListingKeys` | backend/main.py:65-78 | each folder's `path` is the key of a folder entry, and each file's `full_path` is the key of a file entry; every entry has its record |
| `Handlers.ListingUrlsRewritten` | backend/main.py:69-76 | with an external endpoint set, no file URL in the listing contains `http://minio:9000` |
| `Handlers.EntryNameRoundTrip` | backend/main.py:66-72 | for one direct child under a prefix that is `""` or ends in `/`, the prefix followed by the record's display name gives back its key, with a trailing `/` for a folder |
| `Handlers.ListingNamesRoundTrip` | backend/main.py:66-72 | in a non-recursive listing, the prefix followed by a record's display name gives back its key, with a trailing `/` for a folder |
| `Handlers.GetUploadUrl` | backend/main.py:94-101 | a body without `filename` is refused; otherwise `full_path` is the upload key, the URL is `fix_url` of the PUT URL presigned for that key, and with an endpoint set it does not contain `http://minio:9000` |
| `Handlers.UploadThenList` | backend/main.py:97 | for a file name without `/` uploaded under a prefix that listing normalisation leaves unchanged, any listing that holds the uploaded key as a file yields, under that prefix, a file record with that key as `full_path` and the file name as `name` |
| `Store.DeleteAll` | backend/main.py:108-114 | deletion only removes keys, and every requested path not ending in `/` is gone afterwards; `Store.DeleteAllExactly` gives the full rule |
| `Store.DeleteAllExactly` | backend/main.py:108-114 | after `delete_items` a key remains exactly when it was present and no requested path removes it; a path ending in `/` removes the keys it prefixes, any other path only itself |
| `Store.DeleteOrderIrrelevant` | backend/main.py:108-114 | two requests with the same set of paths delete the same keys, whatever the order and repeats |
| `Store.DeleteIdempotent` | backend/main.py:108-114 | repeating a delete request removes nothing more |
| `Store.DeleteFolder` | backend/main.py:109-112 | deleting a folder key removes the marker and every key under it, and nothing else |
| `Store.Bucket.RemoveObject` | backend/main.py:112 | removing a key takes it out of the bucket; a missing key is a no-op |
| `Store.Bucket.PutEmpty` | backend/main.py:88 | putting an object adds its key to the bucket |
| `Store.Bucket.CreateFolder` | backend/main.py:84-91 | the bucket gains the folder key and nothing else, so creating a folder twice is the same as once |
| `Store.Bucket.DeleteItems` | backend/main.py:106-117 | the nested loops leave exactly `DeleteAll` of the old key set |

## Left out

- `PyStr.Lower`: only ASCII `A`-`Z` are lower-cased. Python's `lower()` also lower-cases other letters, and a few of them change length. `Paths.FileType` is not affected: no character outside ASCII lower-cases to `.`, `m`, `p`, `3` or `4`, so it agrees with `lower().endswith(('.mp4', '.mp3'))` on every key.
- `Handlers.ListFiles`: the `size` field (`round(size / 1024 / 1024, 2)`, floating point) and `last_modified` (an opaque timestamp from the store) are not part of the file records.
- `Handlers.ListFiles`: the listing is a parameter. The model does not compute the store's non-recursive listing (objects and common prefixes) from the bucket's keys. `Handlers.ListingNamesRoundTrip` states the shape it assumes.
- `Handlers.ListFiles`: folder names use the corrected `Paths.FolderName`. See Findings.
- `Store.Bucket.DeleteItems`: the recursive listing is taken as one snapshot before any removal. The store's paginated, lazily read listing interleaved with removals is not modelled.
- Errors raised by the store and their conversion to HTTP 500 are not modelled. In `delete_items` one `try` wraps the whole loop (backend/main.py:107-117), so a failing store call stops the deletion and the later paths stay; `Store.DeleteAll`, `Store.DeleteOrderIrrelevant` and `Store.DeleteIdempotent` describe only requests in which no store call fails. Neither is a missing `filename` raising outside the `try`; the model returns `None` for it.
- Request bodies are maps from string to string. JSON values of other types, such as a `null` prefix, are not modelled.
- The startup bucket check (`bucket_exists`, `make_bucket`), the FastAPI app, CORS, routing and pydantic request models are not modelled.
- Reading environment variables is not modelled. `EXTERNAL_ENDPOINT` is a parameter.
- Presigned-URL generation is a function parameter. Its one-hour lifetime and signature are not modelled.

## Findings

| source | as written | input that shows it | evidently intended | confidence | as-written member | corrected member |
|---|---|---|---|---|---|---|
| backend/main.py:67 | a folder's name is its key with every occurrence of the listing prefix removed, then stripped of `/` | prefix `p/`, key `p/p/` gives the name `""` (and `p/xp/` gives `x`) | remove the prefix once, at the front: `p/p/` is named `p` | high; not executed | `Paths.FolderNameAsWritten` (shown by `Paths.FolderNameAsWrittenDropsRepeat`) | `Paths.FolderName` (proved by `Paths.FolderNameOfChild`) |

File names (line 71) use the same `replace`. For a direct child file they are
right (`Paths.FileNameIsRest`), because the file's own name has no `/` and
the prefix ends in one. `Handlers.ListFiles` uses the corrected folder
name.
