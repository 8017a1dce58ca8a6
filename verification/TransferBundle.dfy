/** The content-addressed transfer bundle: its writer, its verifier and the resolver that reads it. */
module TransferBundle {
  import opened Wrappers

  type Bytes = seq<bv8>

  /** SHA-256 in lower-case hexadecimal. */
  type Hash = Bytes -> string

  predicate Digest(s: string) {
    |s| == 64 && forall i :: 0 <= i < |s| ==> s[i] in "0123456789abcdef"
  }

  /** The hash separates the given contents and prints digests. */
  ghost predicate Separates(sha: Hash, contents: set<Bytes>) {
    && (forall a, b :: a in contents && b in contents && sha(a) == sha(b) ==> a == b)
    && (forall c :: Digest(sha(c)))
  }

  /** What a source path leads to when it is read. */
  datatype Source = Readable(content: Bytes) | Symlink | Missing | OutsideRoots

  type Disk = string -> Source

  /** A path recorded in the database, with the identity recorded beside it, if any. */
  datatype Reference = Reference(path: string, expectedSha: Option<string>, expectedSize: Option<nat>)

  datatype ManifestReference = ManifestReference(path: string, sha: string, size: int, objectPath: string)

  datatype ManifestObject = ManifestObject(sha: string, size: int, objectPath: string)

  datatype Manifest = Manifest(objects: seq<ManifestObject>, references: seq<ManifestReference>)

  /** The object files, by name. */
  type Files = map<string, Bytes>

  datatype TransferError =
    | SymlinkForbidden | FileMissing | PathOutside | SizeMismatch | HashMismatch | CopyFailed
    | ObjectInvalid | ObjectMissing | ObjectSizeMismatch | ObjectHashMismatch | ObjectSetMismatch
    | ReferenceInvalid | ReferenceConflict

  function ReadError(s: Source): TransferError
    requires !s.Readable?
  {
    match s
    case Symlink => SymlinkForbidden
    case Missing => FileMissing
    case OutsideRoots => PathOutside
  }

  predicate Expected(r: Reference, sha: Hash, content: Bytes) {
    && (r.expectedSize.Some? ==> r.expectedSize.value == |content|)
    && (r.expectedSha.Some? ==> r.expectedSha.value == sha(content))
  }

  /** Every reference can be read and has its recorded identity. */
  predicate Sound(references: seq<Reference>, disk: Disk, sha: Hash) {
    forall r :: r in references ==> disk(r.path).Readable? && Expected(r, sha, disk(r.path).content)
  }

  function Contents(references: seq<Reference>, disk: Disk): (contents: set<Bytes>)
    ensures forall c :: c in contents <==> exists r :: r in references && disk(r.path) == Readable(c)
  {
    set r | r in references && disk(r.path).Readable? :: disk(r.path).content
  }

  /** The object files are exactly the referenced contents, each under its digest. */
  ghost predicate Stores(files: Files, references: seq<Reference>, disk: Disk, sha: Hash) {
    && (forall name :: name in files ==> name == sha(files[name]) && files[name] in Contents(references, disk))
    && (forall r :: r in references && disk(r.path).Readable? ==> sha(disk(r.path).content) in files)
  }

  function EntryFor(path: string, digest: string, size: nat): ManifestReference {
    ManifestReference(path, digest, size, "objects/" + digest)
  }

  function ObjectFor(digest: string, size: nat): ManifestObject {
    ManifestObject(digest, size, "objects/" + digest)
  }

  ghost predicate Lists(objects: seq<ManifestObject>, files: Files) {
    && (forall i :: 0 <= i < |objects| ==>
          objects[i].sha in files && objects[i] == ObjectFor(objects[i].sha, |files[objects[i].sha]|))
    && (forall name :: name in files ==> exists i :: 0 <= i < |objects| && objects[i].sha == name)
    && (forall i, j :: 0 <= i < j < |objects| ==> objects[i].sha != objects[j].sha)
  }

  ghost predicate Describes(entries: seq<ManifestReference>, references: seq<Reference>, disk: Disk, sha: Hash) {
    && |entries| == |references|
    && forall i :: 0 <= i < |references| ==>
         disk(references[i].path).Readable? && entries[i] == EntryFor(references[i].path, sha(disk(references[i].path).content), |disk(references[i].path).content|)
  }

  /** The identity of each distinct path, as first read. */
  ghost predicate Identified(paths: map<string, (string, nat)>, disk: Disk, sha: Hash) {
    forall p :: p in paths ==> disk(p).Readable? && paths[p] == (sha(disk(p).content), |disk(p).content|)
  }

  ghost predicate Built(done: seq<Reference>, disk: Disk, sha: Hash, files: Files, objects: seq<ManifestObject>, entries: seq<ManifestReference>) {
    Sound(done, disk, sha) && Stores(files, done, disk, sha) && Lists(objects, files) && Describes(entries, done, disk, sha)
  }

  /** One more sound reference whose content is stored. */
  lemma BuiltOneMore(done: seq<Reference>, r: Reference, disk: Disk, sha: Hash, files: Files, objects: seq<ManifestObject>, entries: seq<ManifestReference>)
    requires Sound(done, disk, sha) && Lists(objects, files) && Describes(entries, done, disk, sha)
    requires disk(r.path).Readable? && Expected(r, sha, disk(r.path).content)
    requires sha(disk(r.path).content) in files
    requires Stores(files, done, disk, sha)
    ensures Built(done + [r], disk, sha, files, objects, entries + [EntryFor(r.path, sha(disk(r.path).content), |disk(r.path).content|)])
  {
    hide Lists, Expected;
    StoresOneMore(done, r, disk, sha, files);
    DescribesOneMore(done, r, disk, sha, entries);
    hide Describes, Stores;
    assert forall x :: x in done + [r] <==> x in done || x == r;
  }

  lemma DescribesOneMore(done: seq<Reference>, r: Reference, disk: Disk, sha: Hash, entries: seq<ManifestReference>)
    requires Describes(entries, done, disk, sha) && disk(r.path).Readable?
    ensures Describes(entries + [EntryFor(r.path, sha(disk(r.path).content), |disk(r.path).content|)], done + [r], disk, sha)
  {
    hide EntryFor;
  }

  lemma StoresOneMore(done: seq<Reference>, r: Reference, disk: Disk, sha: Hash, files: Files)
    requires Stores(files, done, disk, sha) && disk(r.path).Readable? && sha(disk(r.path).content) in files
    ensures Stores(files, done + [r], disk, sha)
  {
    assert forall x :: x in done + [r] <==> x in done || x == r;
    forall c | c in Contents(done, disk) ensures c in Contents(done + [r], disk) {
      var x :| x in done && disk(x.path) == Readable(c);
      assert x in done + [r];
    }
  }

  /** A new content gets its own object file and entry. */
  lemma BuiltNewObject(done: seq<Reference>, r: Reference, disk: Disk, sha: Hash, files: Files, objects: seq<ManifestObject>, entries: seq<ManifestReference>)
    requires Built(done, disk, sha, files, objects, entries)
    requires disk(r.path).Readable? && Expected(r, sha, disk(r.path).content)
    requires sha(disk(r.path).content) !in files
    ensures var content := disk(r.path).content;
            Built(done + [r], disk, sha, files[sha(content) := content],
                  objects + [ObjectFor(sha(content), |content|)], entries + [EntryFor(r.path, sha(content), |content|)])
  {
    hide Expected, Describes, Lists, EntryFor;
    var content := disk(r.path).content;
    var more := files[sha(content) := content];
    ListsOneMore(objects, files, sha(content), content);
    assert forall x :: x in done + [r] <==> x in done || x == r;
    assert content in Contents(done + [r], disk);
    forall c | c in Contents(done, disk) ensures c in Contents(done + [r], disk) {
      var x :| x in done && disk(x.path) == Readable(c);
      assert x in done + [r];
    }
    assert Stores(more, done + [r], disk, sha);
    hide Stores;
    DescribesOneMore(done, r, disk, sha, entries);
  }

  lemma NothingBuilt(disk: Disk, sha: Hash)
    ensures Built([], disk, sha, map[], [], [])
  {
  }

  lemma NotSound(references: seq<Reference>, disk: Disk, sha: Hash, r: Reference)
    requires r in references
    requires !(disk(r.path).Readable? && Expected(r, sha, disk(r.path).content))
    ensures !Sound(references, disk, sha)
  {
  }

  /** The identity of a path, read at its first reference only. */
  method Identify(paths: map<string, (string, nat)>, path: string, disk: Disk, sha: Hash)
    returns (r: Result<(string, nat), TransferError>, known: map<string, (string, nat)>)
    requires Identified(paths, disk, sha)
    ensures Identified(known, disk, sha)
    ensures match disk(path)
            case Readable(content) => r == Success((sha(content), |content|))
            case source => r == Failure(ReadError(source))
  {
    known := paths;
    if path in paths {
      return Success(paths[path]), known;
    }
    var source := disk(path);
    if !source.Readable? {
      return Failure(ReadError(source)), known;
    }
    known := paths[path := (sha(source.content), |source.content|)];
    r := Success(known[path]);
  }

  function IdentityError(r: Reference, digest: string, size: nat): Option<TransferError> {
    if r.expectedSize.Some? && size != r.expectedSize.value then Some(SizeMismatch)
    else if r.expectedSha.Some? && digest != r.expectedSha.value then Some(HashMismatch)
    else None
  }

  /** The object file is compared with the identity after it was copied. */
  function CopyError(copied: Source, digest: string, size: nat, sha: Hash): Option<TransferError> {
    if !copied.Readable? then Some(ReadError(copied))
    else if |copied.content| != size || sha(copied.content) != digest then Some(CopyFailed)
    else None
  }

  lemma IdentityMatches(r: Reference, sha: Hash, content: Bytes)
    ensures IdentityError(r, sha(content), |content|).None? <==> Expected(r, sha, content)
  {
  }

  lemma CopyOfSame(copied: Source, sha: Hash)
    requires copied.Readable?
    ensures CopyError(copied, sha(copied.content), |copied.content|, sha).None?
  {
  }

  /** A file whose copy passes the comparison holds what was hashed. */
  lemma CopyIsSame(references: seq<Reference>, r: Reference, disk: Disk, later: Disk, sha: Hash)
    requires Separates(sha, Contents(references, disk) + Contents(references, later))
    requires r in references && disk(r.path).Readable?
    requires CopyError(later(r.path), sha(disk(r.path).content), |disk(r.path).content|, sha).None?
    ensures later(r.path) == disk(r.path)
  {
    assert disk(r.path).content in Contents(references, disk) && later(r.path).content in Contents(references, later);
  }

  /**
   * _copy_source_objects. `later` is what copying reads, after hashing read `disk`: a source that changes
   * in between is caught, and on a quiet disk the bundle is written exactly if every reference is sound.
   */
  method CopySourceObjects(references: seq<Reference>, disk: Disk, later: Disk, sha: Hash)
    returns (r: Result<(Manifest, Files), TransferError>)
    requires Separates(sha, Contents(references, disk) + Contents(references, later))
    ensures r.Success? ==> Built(references, disk, sha, r.value.1, r.value.0.objects, r.value.0.references)
    ensures disk == later ==> (r.Success? <==> Sound(references, disk, sha))
  {
    hide *;
    var entries: seq<ManifestReference>, objects: seq<ManifestObject>, files: Files := [], [], map[];
    var paths: map<string, (string, nat)> := map[];
    assert Identified(paths, disk, sha) by { NothingIdentified(disk, sha); }
    NothingBuilt(disk, sha);
    for i := 0 to |references|
      invariant Identified(paths, disk, sha)
      invariant Built(references[..i], disk, sha, files, objects, entries)
    {
      var reference := references[i];
      TakeOneMore(references, i);
      var identity;
      identity, paths := Identify(paths, reference.path, disk, sha);
      if identity.Failure? {
        NotSound(references, disk, sha, reference);
        return Failure(identity.error);
      }
      var digest, size := identity.value.0, identity.value.1;
      var mismatch := IdentityError(reference, digest, size);
      IdentityMatches(reference, sha, disk(reference.path).content);
      if mismatch.Some? {
        NotSound(references, disk, sha, reference);
        return Failure(mismatch.value);
      }
      var entry := EntryFor(reference.path, digest, size);
      if digest !in files {
        var copied := later(reference.path);
        var error := CopyError(copied, digest, size, sha);
        if error.Some? {
          if copied == disk(reference.path) {
            CopyOfSame(copied, sha);
          }
          return Failure(error.value);
        }
        CopyIsSame(references, reference, disk, later, sha);
        BuiltNewObject(references[..i], reference, disk, sha, files, objects, entries);
        files := files[digest := copied.content];
        objects := objects + [ObjectFor(digest, size)];
      } else {
        BuiltParts(references[..i], disk, sha, files, objects, entries);
        BuiltOneMore(references[..i], reference, disk, sha, files, objects, entries);
      }
      entries := entries + [entry];
    }
    assert references[..|references|] == references;
    BuiltParts(references, disk, sha, files, objects, entries);
    r := Success((Manifest(objects, entries), files));
  }

  lemma TakeOneMore(references: seq<Reference>, i: nat)
    requires i < |references|
    ensures references[..i + 1] == references[..i] + [references[i]]
  {
  }

  lemma NothingIdentified(disk: Disk, sha: Hash)
    ensures Identified(map[], disk, sha)
  {
  }

  lemma BuiltParts(done: seq<Reference>, disk: Disk, sha: Hash, files: Files, objects: seq<ManifestObject>, entries: seq<ManifestReference>)
    requires Built(done, disk, sha, files, objects, entries)
    ensures Sound(done, disk, sha) && Stores(files, done, disk, sha) && Lists(objects, files) && Describes(entries, done, disk, sha)
  {
  }

  lemma ListsOneMore(objects: seq<ManifestObject>, files: Files, name: string, content: Bytes)
    requires Lists(objects, files) && name !in files
    ensures Lists(objects + [ObjectFor(name, |content|)], files[name := content])
  {
    var more := objects + [ObjectFor(name, |content|)];
    forall n: string | n == name || n in files ensures exists i :: 0 <= i < |more| && more[i].sha == n {
      if n == name {
        assert more[|objects|].sha == n;
      } else {
        var i :| 0 <= i < |objects| && objects[i].sha == n;
        assert more[i].sha == n;
      }
    }
  }

  // ----- verifying -----

  predicate ObjectOk(o: ManifestObject, files: Files, sha: Hash) {
    o.objectPath == "objects/" + o.sha && o.sha in files && |files[o.sha]| == o.size && sha(files[o.sha]) == o.sha
  }

  function ObjectError(o: ManifestObject, files: Files, sha: Hash): (e: Option<TransferError>)
    ensures e.None? <==> ObjectOk(o, files, sha)
  {
    if o.objectPath != "objects/" + o.sha then Some(ObjectInvalid)
    else if o.sha !in files then Some(ObjectMissing)
    else if |files[o.sha]| != o.size then Some(ObjectSizeMismatch)
    else if sha(files[o.sha]) != o.sha then Some(ObjectHashMismatch)
    else None
  }

  predicate ReferenceOk(r: ManifestReference, files: Files) {
    r.objectPath == "objects/" + r.sha && r.sha in files
  }

  /** Two references to one path agree. */
  predicate Agree(a: ManifestReference, b: ManifestReference) {
    a.path == b.path ==> a.sha == b.sha && a.size == b.size && a.objectPath == b.objectPath
  }

  /** What verify_bundle's object and reference checks mean. */
  ghost predicate Verified(m: Manifest, files: Files, sha: Hash) {
    && (forall o :: o in m.objects ==> ObjectOk(o, files, sha))
    && (forall name :: name in files ==> exists o :: o in m.objects && o.sha == name)
    && (forall r :: r in m.references ==> ReferenceOk(r, files))
    && (forall r, q :: r in m.references && q in m.references ==> Agree(r, q))
  }

  type Seen = map<string, ManifestReference>

  /** The first entry seen of each path; every entry so far agrees with it. */
  ghost predicate Remembers(seen: Seen, done: seq<ManifestReference>) {
    && (forall p :: p in seen ==> seen[p] in done && seen[p].path == p)
    && (forall r :: r in done ==> r.path in seen && Agree(r, seen[r.path]))
  }

  lemma RememberedAgree(seen: Seen, done: seq<ManifestReference>)
    requires Remembers(seen, done)
    ensures forall r, q :: r in done && q in done ==> Agree(r, q)
  {
  }

  /** verify_bundle: the object, object set and reference checks. */
  method VerifyBundle(m: Manifest, files: Files, sha: Hash) returns (r: Result<nat, TransferError>)
    ensures r.Success? <==> Verified(m, files, sha)
  {
    var expected: set<string> := {};
    for i := 0 to |m.objects|
      invariant forall o :: o in m.objects[..i] ==> ObjectOk(o, files, sha)
      invariant forall name :: name in expected <==> exists o :: o in m.objects[..i] && o.sha == name
    {
      var o := m.objects[i];
      var error := ObjectError(o, files, sha);
      if error.Some? {
        assert o in m.objects;
        return Failure(error.value);
      }
      assert m.objects[..i + 1] == m.objects[..i] + [o];
      expected := expected + {o.sha};
    }
    assert m.objects[..|m.objects|] == m.objects;
    if files.Keys != expected {
      return Failure(ObjectSetMismatch);
    }
    var checked := VerifyReferences(m.references, expected);
    AllNamed(m, files, expected);
    r := if checked.Some? then Failure(checked.value) else Success(|expected|);
  }

  lemma AllNamed(m: Manifest, files: Files, expected: set<string>)
    requires files.Keys == expected
    requires forall name :: name in expected <==> exists o :: o in m.objects && o.sha == name
    ensures forall name :: name in files ==> exists o :: o in m.objects && o.sha == name
  {
  }

  method VerifyReferences(references: seq<ManifestReference>, expected: set<string>) returns (error: Option<TransferError>)
    ensures error.None? <==>
              && (forall r :: r in references ==> r.objectPath == "objects/" + r.sha && r.sha in expected)
              && (forall r, q :: r in references && q in references ==> Agree(r, q))
  {
    var seen: Seen := map[];
    for i := 0 to |references|
      invariant forall r :: r in references[..i] ==> r.objectPath == "objects/" + r.sha && r.sha in expected
      invariant Remembers(seen, references[..i])
    {
      var r := references[i];
      assert r in references && references[..i + 1] == references[..i] + [r];
      if r.objectPath != "objects/" + r.sha || r.sha !in expected {
        return Some(ReferenceInvalid);
      }
      if r.path in seen && !Agree(r, seen[r.path]) {
        assert seen[r.path] in references;
        return Some(ReferenceConflict);
      }
      seen := if r.path in seen then seen else seen[r.path := r];
    }
    assert references[..|references|] == references;
    RememberedAgree(seen, references);
    error := None;
  }
}
