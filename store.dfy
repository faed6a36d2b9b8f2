/** The bucket as the state-changing endpoints of backend/main.py see it:
    a set of object keys. `create_folder` puts an empty marker object and
    `delete_items` removes keys one at a time, a whole sub-tree for a path
    ending in '/' and the exact key otherwise. */
module Store {
  import opened PyStr
  import opened Paths

  /** The keys a recursive listing under `prefix` yields. */
  function KeysUnder(keys: set<string>, prefix: string): set<string> {
    set k | k in keys && StartsWith(k, prefix)
  }

  /** Whether one requested path removes `key`: a path ending in '/' removes
      every key it prefixes, any other path only itself. */
  predicate Removes(path: string, key: string) {
    if EndsWith(path, "/") then StartsWith(key, path) else key == path
  }

  /** The keys left after deleting one requested path. */
  function DeleteOne(keys: set<string>, path: string): set<string> {
    if EndsWith(path, "/") then keys - KeysUnder(keys, path) else keys - {path}
  }

  /** The keys left after deleting the requested paths in order. */
  function DeleteAll(keys: set<string>, paths: seq<string>): (left: set<string>)
    ensures left <= keys
    ensures forall p :: p in paths && !EndsWith(p, "/") ==> p !in left
    decreases |paths|
  {
    if paths == [] then keys
    else DeleteOne(DeleteAll(keys, paths[..|paths| - 1]), paths[|paths| - 1])
  }

  /** A key survives `delete_items` exactly when it was there and no
      requested path removes it. */
  lemma {:induction false} DeleteAllExactly(keys: set<string>, paths: seq<string>, k: string)
    ensures k in DeleteAll(keys, paths) <==> k in keys && forall p :: p in paths ==> !Removes(p, k)
    decreases |paths|
  {
    if paths != [] {
      var init := paths[..|paths| - 1];
      DeleteAllExactly(keys, init, k);
      var last := paths[|paths| - 1];
      assert paths == init + [last];
      assert forall p :: p in paths <==> p in init || p == last;
      assert k in DeleteOne(DeleteAll(keys, init), last) <==> k in DeleteAll(keys, init) && !Removes(last, k);
    }
  }

  /** The order of the requested paths, and repeats among them, do not
      matter. */
  lemma DeleteOrderIrrelevant(keys: set<string>, paths: seq<string>, others: seq<string>)
    requires forall p :: p in paths <==> p in others
    ensures DeleteAll(keys, paths) == DeleteAll(keys, others)
  {
    forall k | true ensures k in DeleteAll(keys, paths) <==> k in DeleteAll(keys, others) {
      DeleteAllExactly(keys, paths, k);
      DeleteAllExactly(keys, others, k);
    }
  }

  /** Deleting the same paths again removes nothing more. */
  lemma DeleteIdempotent(keys: set<string>, paths: seq<string>)
    ensures DeleteAll(DeleteAll(keys, paths), paths) == DeleteAll(keys, paths)
  {
    forall k | true ensures k in DeleteAll(DeleteAll(keys, paths), paths) <==> k in DeleteAll(keys, paths) {
      DeleteAllExactly(keys, paths, k);
      DeleteAllExactly(DeleteAll(keys, paths), paths, k);
    }
  }

  /** Deleting a folder marker path removes the marker itself and every
      key below it, and nothing outside it. */
  lemma DeleteFolder(keys: set<string>, path: string)
    ensures DeleteAll(keys, [FolderKey(path)]) == keys - KeysUnder(keys, FolderKey(path))
    ensures FolderKey(path) !in DeleteAll(keys, [FolderKey(path)])
  {
  }

  class Bucket {
    var keys: set<string>

    constructor (initial: set<string>)
      ensures keys == initial
    {
      keys := initial;
    }

    /** `remove_object`: removing a key that is not there is a no-op. */
    method RemoveObject(key: string)
      modifies this
      ensures keys == old(keys) - {key}
    {
      keys := keys - {key};
    }

    /** `put_object` of an empty object. */
    method PutEmpty(key: string)
      modifies this
      ensures keys == old(keys) + {key}
    {
      keys := keys + {key};
    }

    /** `create_folder`: put the empty marker object for the folder key;
      doing it again changes nothing. */
    method CreateFolder(path: string)
      modifies this
      ensures keys == old(keys) + {FolderKey(path)}
      ensures FolderKey(path) in keys && EndsWith(FolderKey(path), "/")
    {
      var key := path;
      if !EndsWith(key, "/") {
        key := key + "/";
      }
      PutEmpty(key);
    }

    /** `delete_items`: for each requested path in order, remove every key
      that the recursive listing under it yields when it ends in '/', and
      the path itself otherwise. */
    method DeleteItems(paths: seq<string>)
      modifies this
      ensures keys == DeleteAll(old(keys), paths)
    {
      var i := 0;
      while i < |paths|
        invariant 0 <= i <= |paths|
        invariant keys == DeleteAll(old(keys), paths[..i])
      {
        var path := paths[i];
        assert paths[..i + 1][..i] == paths[..i];
        if EndsWith(path, "/") {
          ghost var before := keys;
          var objects := KeysUnder(keys, path);
          while objects != {}
            invariant objects <= KeysUnder(before, path)
            invariant keys == before - (KeysUnder(before, path) - objects)
            decreases objects
          {
            var obj :| obj in objects;
            RemoveObject(obj);
            objects := objects - {obj};
          }
        } else {
          RemoveObject(path);
        }
        i := i + 1;
      }
      assert paths[..i] == paths;
    }
  }
}
