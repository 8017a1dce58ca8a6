/** Resolving original source paths through a bundle's manifest, with a cache of verified objects. */
module SourcePaths {
  import opened Wrappers
  import opened Text
  import opened TransferBundle

  datatype SourceObject = SourceObject(objectPath: string, sha: string, size: int)

  datatype PathError =
    | ManifestInvalid | ManifestConflict | Unavailable | ObjectPathInvalid | ObjectUnavailable
    | ResolveSizeMismatch | ResolveHashMismatch

  datatype Resolution = Direct | Object(name: string) | Unresolved(error: PathError)

  /** An object file with the modification time the file system reports. */
  datatype FileState = FileState(content: Bytes, mtime: int)

  type Store = map<string, FileState>

  // ----- loading -----

  predicate ReferenceValid(r: ManifestReference) {
    r.path != "" && r.objectPath != "" && |r.sha| == 64 && r.size >= 0
  }

  function ObjectOf(r: ManifestReference): SourceObject {
    SourceObject(r.objectPath, Lower(r.sha), r.size)
  }

  /** Every reference is valid and no two of one path differ. */
  predicate Loadable(references: seq<ManifestReference>) {
    && (forall r :: r in references ==> ReferenceValid(r))
    && (forall r, q :: r in references && q in references && r.path == q.path ==> ObjectOf(r) == ObjectOf(q))
  }

  type ObjectsByPath = map<string, SourceObject>

  ghost predicate Loaded(objects: ObjectsByPath, references: seq<ManifestReference>) {
    && (forall p :: p in objects ==> exists r :: r in references && r.path == p && ObjectOf(r) == objects[p])
    && (forall r :: r in references ==> r.path in objects && objects[r.path] == ObjectOf(r))
  }

  /** _load_manifest */
  method LoadManifest(references: seq<ManifestReference>) returns (r: Result<ObjectsByPath, PathError>)
    ensures r.Success? <==> Loadable(references)
    ensures r.Success? ==> Loaded(r.value, references)
  {
    hide ObjectOf;
    var objects: ObjectsByPath := map[];
    for i := 0 to |references|
      invariant forall r :: r in references[..i] ==> ReferenceValid(r)
      invariant Loaded(objects, references[..i])
    {
      var reference := references[i];
      assert reference in references && references[..i + 1] == references[..i] + [reference];
      if !ReferenceValid(reference) {
        return Failure(ManifestInvalid);
      }
      var candidate := ObjectOf(reference);
      if reference.path in objects && objects[reference.path] != candidate {
        var q :| q in references[..i] && q.path == reference.path && ObjectOf(q) == objects[reference.path];
        assert q in references;
        return Failure(ManifestConflict);
      }
      objects := objects[reference.path := candidate];
    }
    assert references[..|references|] == references;
    r := Success(objects);
  }

  // ----- resolving -----

  /** What resolving answers when every object is hashed again. */
  function Rehashed(objects: ObjectsByPath, isFile: string -> bool, store: Store, sha: Hash, path: string): Resolution {
    if isFile(path) then Direct
    else if path !in objects then Unresolved(Unavailable)
    else
      var o := objects[path];
      if o.objectPath != "objects/" + o.sha then Unresolved(ObjectPathInvalid)
      else if o.sha !in store then Unresolved(ObjectUnavailable)
      else if |store[o.sha].content| != o.size then Unresolved(ResolveSizeMismatch)
      else if sha(store[o.sha].content) != o.sha then Unresolved(ResolveHashMismatch)
      else Object(o.sha)
  }

  /** A cache entry: file name, digest, size and modification time. */
  type CacheKey = (string, string, nat, int)

  function KeyOf(name: string, file: FileState): CacheKey {
    (name, name, |file.content|, file.mtime)
  }

  /** What resolving answers when an object with a cached entry is not hashed again. */
  function Cached(objects: ObjectsByPath, isFile: string -> bool, store: Store, sha: Hash, verified: set<CacheKey>, path: string): Resolution {
    if isFile(path) then Direct
    else if path !in objects then Unresolved(Unavailable)
    else
      var o := objects[path];
      if o.objectPath != "objects/" + o.sha then Unresolved(ObjectPathInvalid)
      else if o.sha !in store then Unresolved(ObjectUnavailable)
      else if |store[o.sha].content| != o.size then Unresolved(ResolveSizeMismatch)
      else if KeyOf(o.sha, store[o.sha]) !in verified && sha(store[o.sha].content) != o.sha then Unresolved(ResolveHashMismatch)
      else Object(o.sha)
  }

  /** A cached object whose content no longer hashes to its name. */
  predicate Stale(store: Store, sha: Hash, verified: set<CacheKey>, name: string) {
    name in store && KeyOf(name, store[name]) in verified && sha(store[name].content) != name
  }

  /** The cache gives another answer than hashing again if and only if it answers with a stale object. */
  lemma CacheAgreesWhen(objects: ObjectsByPath, isFile: string -> bool, store: Store, sha: Hash, verified: set<CacheKey>, path: string)
    ensures var r := Cached(objects, isFile, store, sha, verified, path);
            r == Rehashed(objects, isFile, store, sha, path) <==> !(r.Object? && Stale(store, sha, verified, r.name))
  {
  }

  /** What a file of a name, size and modification time contains, whenever it is looked at. */
  type History = (string, nat, int) -> Bytes

  /** A change of content has changed the size or the modification time. */
  ghost predicate Follows(store: Store, history: History) {
    forall name :: name in store ==> store[name].content == history(name, |store[name].content|, store[name].mtime)
  }

  class Resolver {
    const objects: ObjectsByPath
    const sha: Hash
    var verified: set<CacheKey>

    /** Each cached entry was hashed when the file had that size and modification time. */
    ghost predicate Valid(history: History)
      reads this
    {
      forall k :: k in verified ==> sha(history(k.0, k.2, k.3)) == k.1 && k.0 == k.1
    }

    constructor (objects: ObjectsByPath, sha: Hash)
      ensures this.objects == objects && this.sha == sha && verified == {}
      ensures forall history :: Valid(history)
    {
      this.objects, this.sha, verified := objects, sha, {};
    }

    /** resolve: the cache never changes an answer, as long as changed contents change size or time. */
    method Resolve(isFile: string -> bool, store: Store, path: string) returns (r: Resolution)
      modifies this`verified
      ensures r == Cached(objects, isFile, store, sha, old(verified), path)
      ensures verified == if r.Object? then old(verified) + {KeyOf(r.name, store[r.name])} else old(verified)
      ensures forall history :: old(Valid(history)) && Follows(store, history) ==>
                Valid(history) && r == Rehashed(objects, isFile, store, sha, path)
    {
      if isFile(path) {
        return Direct;
      }
      if path !in objects {
        return Unresolved(Unavailable);
      }
      var o := objects[path];
      if o.objectPath != "objects/" + o.sha {
        return Unresolved(ObjectPathInvalid);
      }
      if o.sha !in store {
        return Unresolved(ObjectUnavailable);
      }
      var file := store[o.sha];
      if |file.content| != o.size {
        return Unresolved(ResolveSizeMismatch);
      }
      if KeyOf(o.sha, file) !in verified {
        if sha(file.content) != o.sha {
          return Unresolved(ResolveHashMismatch);
        }
        verified := verified + {KeyOf(o.sha, file)};
      }
      r := Object(o.sha);
    }
  }

  /** Without that guarantee a resolver answers with an object whose content it never hashed. */
  method AnswersStale(sha: Hash, before: Bytes, after: Bytes, mtime: int, path: string) returns (first: Resolution, second: Resolution)
    requires |before| == |after| && sha(before) != sha(after)
    ensures first == second == Object(sha(before))
  {
    var name := sha(before);
    var resolver := new Resolver(map[path := SourceObject("objects/" + name, name, |before|)], sha);
    first := resolver.Resolve(_ => false, map[name := FileState(before, mtime)], path);
    second := resolver.Resolve(_ => false, map[name := FileState(after, mtime)], path);
  }

  // ----- from writing to resolving -----

  lemma DigestIsLower(s: string)
    requires Digest(s)
    ensures Lower(s) == s
  {
  }

  /** What the writer writes, the verifier accepts. */
  lemma WrittenBundleVerifies(references: seq<Reference>, disk: Disk, sha: Hash, m: Manifest, files: Files)
    requires Built(references, disk, sha, files, m.objects, m.references)
    ensures Verified(m, files, sha)
  {
    forall name | name in files ensures exists o :: o in m.objects && o.sha == name {
      var i :| 0 <= i < |m.objects| && m.objects[i].sha == name;
      assert m.objects[i] in m.objects;
    }
  }

  /** What the writer writes, the resolver loads without conflict. */
  lemma WrittenBundleLoads(references: seq<Reference>, disk: Disk, sha: Hash, m: Manifest, files: Files)
    requires Built(references, disk, sha, files, m.objects, m.references)
    requires Separates(sha, Contents(references, disk)) && !disk("").Readable?
    ensures Loadable(m.references)
  {
    hide Digest, Lists, Stores, Loadable;
    forall r | r in m.references
      ensures disk(r.path).Readable? && r == EntryFor(r.path, sha(disk(r.path).content), |disk(r.path).content|) && ReferenceValid(r)
    {
      var i :| 0 <= i < |m.references| && m.references[i] == r;
      assert r.path == references[i].path;
      DigestLength(r.sha);
    }
    LoadableByPath(m.references);
  }

  lemma DigestLength(s: string)
    requires Digest(s)
    ensures |s| == 64
  {
  }

  lemma LoadableByPath(references: seq<ManifestReference>)
    requires forall r :: r in references ==> ReferenceValid(r)
    requires forall r, q :: r in references && q in references && r.path == q.path ==> r == q
    ensures Loadable(references)
  {
    hide ObjectOf, ReferenceValid;
  }

  /** Each original path that is no longer a file resolves to an object with the content it had. */
  lemma WrittenBundleResolves(references: seq<Reference>, disk: Disk, sha: Hash, m: Manifest, files: Files,
                              objects: ObjectsByPath, isFile: string -> bool, store: Store, i: nat)
    requires Built(references, disk, sha, files, m.objects, m.references)
    requires Separates(sha, Contents(references, disk))
    requires Loaded(objects, m.references)
    requires store.Keys == files.Keys && forall name :: name in store ==> store[name].content == files[name]
    requires i < |references| && !isFile(references[i].path)
    ensures var content := disk(references[i].path).content;
            && Rehashed(objects, isFile, store, sha, references[i].path) == Object(sha(content))
            && sha(content) in store && store[sha(content)].content == content
  {
    hide Digest, Lists;
    var content := disk(references[i].path).content;
    DigestIsLower(sha(content));
    assert references[i] in references && m.references[i] in m.references;
    assert content in Contents(references, disk) && sha(content) in files;
    assert files[sha(content)] == content;
  }

  /** Object files and distinct contents are in bijection. */
  lemma ObjectsAreContents(references: seq<Reference>, disk: Disk, sha: Hash, m: Manifest, files: Files)
    requires Built(references, disk, sha, files, m.objects, m.references)
    requires Separates(sha, Contents(references, disk))
    ensures files.Values == Contents(references, disk)
    ensures |m.objects| == |Contents(references, disk)|
    ensures forall a, b :: a in files && b in files && files[a] == files[b] ==> a == b
  {
    hide Digest, Lists;
    forall c | c in Contents(references, disk) ensures c in files.Values {
      var r :| r in references && disk(r.path) == Readable(c);
      assert sha(c) in files && files[sha(c)] in Contents(references, disk);
      assert files[sha(c)] == c;
    }
    CountObjects(m.objects, files);
    CountValues(files, files.Keys, sha);
    assert files.Values == ImageOf(files, files.Keys);
  }

  function ImageOf(files: Files, names: set<string>): (contents: set<Bytes>)
    requires names <= files.Keys
    ensures forall c :: c in contents <==> exists n :: n in names && files[n] == c
  {
    set n | n in names :: files[n]
  }

  lemma {:induction false} CountValues(files: Files, names: set<string>, sha: Hash)
    requires names <= files.Keys && forall n :: n in files ==> n == sha(files[n])
    ensures |ImageOf(files, names)| == |names|
  {
    if names != {} {
      var n :| n in names;
      var rest := names - {n};
      CountValues(files, rest, sha);
      forall k | k in rest ensures files[k] != files[n] {
        assert k == sha(files[k]) && n == sha(files[n]);
      }
      assert ImageOf(files, names) == ImageOf(files, rest) + {files[n]};
    }
  }

  lemma CountObjects(objects: seq<ManifestObject>, files: Files)
    requires Lists(objects, files)
    ensures |objects| == |files|
  {
    NamesCount(objects);
    assert Names(objects) == files.Keys;
  }

  function Names(objects: seq<ManifestObject>): (names: set<string>)
    ensures forall n :: n in names <==> exists i :: 0 <= i < |objects| && objects[i].sha == n
  {
    set o | o in objects :: o.sha
  }

  lemma {:induction false} NamesCount(objects: seq<ManifestObject>)
    requires forall i, j :: 0 <= i < j < |objects| ==> objects[i].sha != objects[j].sha
    ensures |Names(objects)| == |objects|
  {
    if objects != [] {
      var k := |objects| - 1;
      NamesCount(objects[..k]);
      assert objects == objects[..k] + [objects[k]];
      assert Names(objects) == Names(objects[..k]) + {objects[k].sha};
      assert objects[k].sha !in Names(objects[..k]);
    }
  }

  /** Writing, verifying and loading on a quiet disk with sound references. */
  method WriteAndLoad(references: seq<Reference>, disk: Disk, sha: Hash)
    returns (manifest: Manifest, files: Files, objects: ObjectsByPath)
    requires Separates(sha, Contents(references, disk)) && Sound(references, disk, sha) && !disk("").Readable?
    ensures Built(references, disk, sha, files, manifest.objects, manifest.references)
    ensures Verified(manifest, files, sha)
    ensures Loaded(objects, manifest.references)
  {
    hide *;
    UnionWithItself(Contents(references, disk));
    var written := CopySourceObjects(references, disk, disk, sha);
    manifest, files := written.value.0, written.value.1;
    WrittenBundleVerifies(references, disk, sha, manifest, files);
    var accepted := VerifyBundle(manifest, files, sha);
    WrittenBundleLoads(references, disk, sha, manifest, files);
    var loaded := LoadManifest(manifest.references);
    assert accepted.Success?;
    objects := loaded.value;
  }

  lemma UnionWithItself(contents: set<Bytes>)
    ensures contents + contents == contents
  {
  }

  /** The object files as the file system presents them after the transfer. */
  function Placed(files: Files, mtime: int): (store: Store)
    ensures store.Keys == files.Keys && forall n :: n in store ==> store[n] == FileState(files[n], mtime)
  {
    map n | n in files :: FileState(files[n], mtime)
  }

  /**
   * The whole transfer: on a quiet disk with sound references the bundle is written, verifies, loads, and
   * every path that did not move along resolves to its original content.
   */
  method MoveSources(references: seq<Reference>, disk: Disk, sha: Hash, ghost history: History, mtime: int, isFile: string -> bool)
    returns (manifest: Manifest, files: Files, resolutions: seq<Resolution>)
    requires Separates(sha, Contents(references, disk)) && Sound(references, disk, sha) && !disk("").Readable?
    requires forall c :: c in Contents(references, disk) ==> history(sha(c), |c|, mtime) == c
    requires forall r :: r in references ==> !isFile(r.path)
    ensures Verified(manifest, files, sha) && files.Values == Contents(references, disk)
    ensures |resolutions| == |references| && AllRestored(resolutions, references, disk, files)
  {
    hide *;
    var objects;
    manifest, files, objects := WriteAndLoad(references, disk, sha);
    ObjectsAreContents(references, disk, sha, manifest, files);
    var store := Placed(files, mtime);
    PlacedFollows(references, disk, sha, manifest, files, history, mtime);
    var resolver := new Resolver(objects, sha);
    resolutions := [];
    NoneRestored(references, disk, files);
    for i := 0 to |references|
      invariant resolver.Valid(history) && resolver.objects == objects && resolver.sha == sha
      invariant fresh(resolver) && |resolutions| == i && AllRestored(resolutions, references, disk, files)
    {
      assert references[i] in references;
      ResolvesToOriginal(references, disk, sha, manifest, files, objects, isFile, mtime, i);
      var r := resolver.Resolve(isFile, store, references[i].path);
      OneMoreRestored(resolutions, references, disk, files, r);
      resolutions := resolutions + [r];
    }
  }

  /** The resolution names an object file with the source's content. */
  predicate Restored(r: Resolution, source: Source, files: Files) {
    r.Object? && r.name in files && Readable(files[r.name]) == source
  }

  predicate AllRestored(resolutions: seq<Resolution>, references: seq<Reference>, disk: Disk, files: Files) {
    |resolutions| <= |references| && forall i :: 0 <= i < |resolutions| ==> Restored(resolutions[i], disk(references[i].path), files)
  }

  lemma ResolvesToOriginal(references: seq<Reference>, disk: Disk, sha: Hash, m: Manifest, files: Files,
                           objects: ObjectsByPath, isFile: string -> bool, mtime: int, i: nat)
    requires Built(references, disk, sha, files, m.objects, m.references)
    requires Separates(sha, Contents(references, disk)) && Loaded(objects, m.references)
    requires i < |references| && !isFile(references[i].path)
    ensures Restored(Rehashed(objects, isFile, Placed(files, mtime), sha, references[i].path), disk(references[i].path), files)
  {
    hide Separates, Loaded, Rehashed, Lists, Describes, Stores;
    assert references[i] in references && disk(references[i].path).Readable?;
    WrittenBundleResolves(references, disk, sha, m, files, objects, isFile, Placed(files, mtime), i);
  }

  lemma NoneRestored(references: seq<Reference>, disk: Disk, files: Files)
    ensures AllRestored([], references, disk, files)
  {
  }

  lemma OneMoreRestored(resolutions: seq<Resolution>, references: seq<Reference>, disk: Disk, files: Files, r: Resolution)
    requires AllRestored(resolutions, references, disk, files) && |resolutions| < |references|
    requires Restored(r, disk(references[|resolutions|].path), files)
    ensures AllRestored(resolutions + [r], references, disk, files)
  {
  }

  lemma PlacedFollows(references: seq<Reference>, disk: Disk, sha: Hash, m: Manifest, files: Files, history: History, mtime: int)
    requires Built(references, disk, sha, files, m.objects, m.references)
    requires forall c :: c in Contents(references, disk) ==> history(sha(c), |c|, mtime) == c
    ensures Follows(Placed(files, mtime), history)
  {
    StoredByDigest(references, disk, sha, m, files);
    hide Built;
  }

  lemma StoredByDigest(references: seq<Reference>, disk: Disk, sha: Hash, m: Manifest, files: Files)
    requires Built(references, disk, sha, files, m.objects, m.references)
    ensures forall n :: n in files ==> n == sha(files[n]) && files[n] in Contents(references, disk)
  {
  }
}
