/** Reading an object version back, and checking everything about it that is on disk. */
module ObjectVerifier {
  import opened Base
  import opened ChunkLayout
  import opened ObjectDirectory

  datatype VerifyError =
    | MetadataUnreadable
    | ObjectIdMismatch
    | VersionIdMismatch
    | InvalidSize
    | InvalidChunkSize
    | InvalidChunkCount
    | TooManyChunks
    | InvalidChecksum
    | InvalidChunkChecksums
    | TooManyChunkChecksums
    | InvalidChunkChecksum(index: nat)
    | ChecksumCountMismatch
    | CountDoesNotMatchSize
    | UnexpectedChunk(name: string)
    | MissingChunk(index: nat)
    | ChunkSizeMismatch(index: nat)
    | NoChecksumForChunk(index: nat)
    | ChunkChecksumMismatch(index: nat)
    | ObjectSizeMismatch
    | ObjectChecksumMismatch

  datatype Verification = Verification(
    sizeBytes: nat, valid: bool, checksum: Option<string>, chunkCount: nat,
    corruptChunks: set<nat>, errors: seq<VerifyError>)

  datatype StorageError = ObjectNotFound | BadMetadata | ChunkUnreadable

  // ----- What verification means

  /** The bytes of the first n chunk files; a missing file contributes nothing. */
  function Payload(files: map<string, Bytes>, n: nat): Bytes {
    if n == 0 then []
    else Payload(files, n - 1) + (if ChunkName(n - 1) in files then files[ChunkName(n - 1)] else [])
  }

  function UsableSize(meta: Meta): Option<int> {
    if meta.sizeBytes.Some? && meta.sizeBytes.value >= 0 then meta.sizeBytes else None
  }

  function UsableChunkSize(meta: Meta): Option<int> {
    if meta.chunkSizeBytes.Some? && meta.chunkSizeBytes.value > 0 then meta.chunkSizeBytes else None
  }

  function UsableCount(meta: Meta): (count: Option<nat>) {
    if meta.chunkCount.Some? && 0 <= meta.chunkCount.value <= MAX_VERIFY_CHUNKS then Some(meta.chunkCount.value)
    else None
  }

  function UsableChecksums(meta: Meta): seq<string> {
    if meta.chunkChecksums.Some? && |meta.chunkChecksums.value| <= MAX_VERIFY_CHUNKS then meta.chunkChecksums.value
    else []
  }

  /** The metadata is complete, typed, within limits and consistent with itself and the request. */
  predicate MetaSound(objectId: string, versionId: string, meta: Meta) {
    && meta.objectId == Some(objectId) && meta.versionId == Some(versionId)
    && UsableSize(meta).Some? && UsableChunkSize(meta).Some? && UsableCount(meta).Some?
    && meta.checksum.Some? && IsSha256(meta.checksum.value)
    && meta.chunkChecksums.Some? && |meta.chunkChecksums.value| == UsableCount(meta).value
    && (forall i :: 0 <= i < |meta.chunkChecksums.value| ==> IsSha256(meta.chunkChecksums.value[i]))
    && UsableCount(meta).value == ChunkCount(UsableSize(meta).value, UsableChunkSize(meta).value)
  }

  /** A "chunk-" entry whose name is not one of the expected chunk names. */
  predicate Unexpected(count: Option<nat>, name: string) {
    IsChunkEntry(name) &&
    (count.None? || ParseChunkIndex(name).None? || ParseChunkIndex(name).value >= count.value)
  }

  /** Chunk i is missing, or its size or digest is not what the metadata says. */
  predicate BadChunk(hash: Hash, meta: Meta, files: map<string, Bytes>, i: nat) {
    var name := ChunkName(i);
    var sums := UsableChecksums(meta);
    || name !in files
    || ExpectedChunkSize(UsableSize(meta), UsableChunkSize(meta), UsableCount(meta), i) !in {None, Some(|files[name]|)}
    || i >= |sums|
    || hash(files[name]) != sums[i]
  }

  /** The chunk indexes reported as corrupt: bad expected chunks, and stray ones that carry an index. */
  ghost predicate Corrupt(hash: Hash, meta: Meta, files: map<string, Bytes>, i: nat) {
    || (UsableCount(meta).Some? && i < UsableCount(meta).value && BadChunk(hash, meta, files, i))
    || (exists name :: name in files && Unexpected(UsableCount(meta), name) && ParseChunkIndex(name) == Some(i))
  }

  function CountOf(meta: Meta): nat {
    if UsableCount(meta).Some? then UsableCount(meta).value else 0
  }

  /** An object version is valid when its metadata is sound and its chunk files are what it describes. */
  ghost predicate Sound(hash: Hash, objectId: string, versionId: string, meta: Meta, files: map<string, Bytes>) {
    && MetaSound(objectId, versionId, meta)
    && (forall name :: name in files ==> !Unexpected(UsableCount(meta), name))
    && (forall i :: 0 <= i < CountOf(meta) ==> !BadChunk(hash, meta, files, i))
    && |Payload(files, CountOf(meta))| == UsableSize(meta).value
    && hash(Payload(files, CountOf(meta))) == meta.checksum.value
  }

  // ----- The verifier

  /** Read one chunk file in blocks, feeding the running hashes. */
  method ReadChunk(file: Bytes, readSize: nat) returns (data: Bytes)
    requires readSize > 0
    ensures data == file
  {
    data := [];
    while |data| < |file|
      invariant data <= file
      decreases |file| - |data|
    {
      var block := file[|data|..Min(|data| + readSize, |file|)];
      data := data + block;
    }
  }

  method CheckMetadata(objectId: string, versionId: string, meta: Meta) returns (errors: seq<VerifyError>)
    ensures errors == [] <==> MetaSound(objectId, versionId, meta)
  {
    errors := [];
    if meta.objectId != Some(objectId) {
      errors := errors + [ObjectIdMismatch];
    }
    if meta.versionId != Some(versionId) {
      errors := errors + [VersionIdMismatch];
    }
    var size, chunkSize, count := UsableSize(meta), UsableChunkSize(meta), UsableCount(meta);
    if size.None? {
      errors := errors + [InvalidSize];
    }
    if chunkSize.None? {
      errors := errors + [InvalidChunkSize];
    }
    if count.None? {
      errors := errors + [if meta.chunkCount.Some? && meta.chunkCount.value >= 0 then TooManyChunks
                          else InvalidChunkCount];
    }
    if meta.checksum.None? || !IsSha256(meta.checksum.value) {
      errors := errors + [InvalidChecksum];
    }
    var sums := UsableChecksums(meta);
    if meta.chunkChecksums.None? {
      errors := errors + [InvalidChunkChecksums];
    } else if |meta.chunkChecksums.value| > MAX_VERIFY_CHUNKS {
      errors := errors + [TooManyChunkChecksums];
    } else {
      ghost var before := errors;
      for i := 0 to |sums|
        invariant errors == [] <==> before == [] && forall k :: 0 <= k < i ==> IsSha256(sums[k])
      {
        if !IsSha256(sums[i]) {
          errors := errors + [InvalidChunkChecksum(i)];
        }
      }
    }
    if count.Some? && |sums| != count.value {
      errors := errors + [ChecksumCountMismatch];
    }
    if size.Some? && chunkSize.Some? && count.Some? && ChunkCount(size.value, chunkSize.value) != count.value {
      errors := errors + [CountDoesNotMatchSize];
    }
  }

  /** Look at every directory entry, in whatever order they come. */
  method CheckEntries(count: Option<nat>, files: map<string, Bytes>) returns (errors: seq<VerifyError>,
                                                                              corrupt: set<nat>)
    ensures errors == [] <==> forall name :: name in files ==> !Unexpected(count, name)
    ensures forall i: nat :: i in corrupt <==>
              exists name :: name in files && Unexpected(count, name) && ParseChunkIndex(name) == Some(i)
  {
    errors, corrupt := [], {};
    var rest := files.Keys;
    while rest != {}
      invariant rest <= files.Keys
      invariant errors == [] <==> forall name :: name in files && name !in rest ==> !Unexpected(count, name)
      invariant forall i: nat :: i in corrupt <==>
        exists name :: name in files && name !in rest && Unexpected(count, name) && ParseChunkIndex(name) == Some(i)
      decreases rest
    {
      var name :| name in rest;
      rest := rest - {name};
      if Unexpected(count, name) {
        errors := errors + [UnexpectedChunk(name)];
        if ParseChunkIndex(name).Some? {
          corrupt := corrupt + {ParseChunkIndex(name).value};
        }
      }
    }
  }

  /** One round of the chunk loop; `data` are the bytes found and `errors` what is wrong with the chunk. */
  method CheckChunk(hash: Hash, engineChunkSize: nat, meta: Meta, files: map<string, Bytes>, index: nat)
    returns (data: Bytes, errors: seq<VerifyError>)
    requires engineChunkSize > 0
    ensures data == if ChunkName(index) in files then files[ChunkName(index)] else []
    ensures errors == [] <==> !BadChunk(hash, meta, files, index)
  {
    data, errors := [], [];
    var name := ChunkName(index);
    if name !in files {
      errors := [MissingChunk(index)];
      return;
    }
    var chunkSize := UsableChunkSize(meta);
    var expected := ExpectedChunkSize(UsableSize(meta), chunkSize, UsableCount(meta), index);
    if expected.Some? && expected.value != |files[name]| {
      errors := errors + [ChunkSizeMismatch(index)];
    }
    data := ReadChunk(files[name], if chunkSize.Some? then Min(chunkSize.value, engineChunkSize) else engineChunkSize);
    var sums := UsableChecksums(meta);
    if index >= |sums| {
      errors := errors + [NoChecksumForChunk(index)];
    } else if hash(data) != sums[index] {
      errors := errors + [ChunkChecksumMismatch(index)];
    }
  }

  method CheckChunks(hash: Hash, engineChunkSize: nat, meta: Meta, files: map<string, Bytes>)
    returns (data: Bytes, errors: seq<VerifyError>, corrupt: set<nat>)
    requires engineChunkSize > 0
    ensures data == Payload(files, CountOf(meta))
    ensures errors == [] <==> forall i :: 0 <= i < CountOf(meta) ==> !BadChunk(hash, meta, files, i)
    ensures forall i: nat :: i in corrupt <==> i < CountOf(meta) && BadChunk(hash, meta, files, i)
  {
    data, errors, corrupt := [], [], {};
    for index := 0 to CountOf(meta)
      invariant data == Payload(files, index)
      invariant errors == [] <==> forall i :: 0 <= i < index ==> !BadChunk(hash, meta, files, i)
      invariant forall i: nat :: i in corrupt <==> i < index && BadChunk(hash, meta, files, i)
    {
      var chunk, chunkErrors := CheckChunk(hash, engineChunkSize, meta, files, index);
      data := data + chunk;
      errors := errors + chunkErrors;
      if chunkErrors != [] {
        corrupt := corrupt + {index};
      }
    }
  }

  method Verify(hash: Hash, engineChunkSize: nat, objectId: string, versionId: string, dir: Dir)
    returns (r: Result<Verification, StorageError>)
    requires engineChunkSize > 0
    ensures dir.meta.NoMeta? <==> r == Err(ObjectNotFound)
    ensures dir.meta.Unreadable? ==> r == Ok(Verification(0, false, None, 0, {}, [MetadataUnreadable]))
    ensures dir.meta.Json? ==>
              var meta := dir.meta.meta;
              var payload := Payload(dir.files, CountOf(meta));
              && r.Ok?
              && (r.value.valid <==> Sound(hash, objectId, versionId, meta, dir.files))
              && (r.value.valid <==> r.value.errors == [])
              && (forall i: nat :: i in r.value.corruptChunks <==> Corrupt(hash, meta, dir.files, i))
              && r.value.sizeBytes == |payload|
              && r.value.checksum == Some(hash(payload))
              && r.value.chunkCount == CountOf(meta)
  {
    if dir.meta.NoMeta? {
      return Err(ObjectNotFound);
    }
    if dir.meta.Unreadable? {
      return Ok(Verification(0, false, None, 0, {}, [MetadataUnreadable]));
    }
    var meta, files := dir.meta.meta, dir.files;
    var count := UsableCount(meta);
    var errors := CheckMetadata(objectId, versionId, meta);
    var entryErrors, corrupt := CheckEntries(count, files);
    errors := errors + entryErrors;

    var data, chunkErrors, bad := CheckChunks(hash, engineChunkSize, meta, files);
    errors, corrupt := errors + chunkErrors, corrupt + bad;
    if UsableSize(meta).Some? && |data| != UsableSize(meta).value {
      errors := errors + [ObjectSizeMismatch];
    }
    if meta.checksum.Some? && IsSha256(meta.checksum.value) && hash(data) != meta.checksum.value {
      errors := errors + [ObjectChecksumMismatch];
    }
    r := Ok(Verification(|data|, errors == [] && corrupt == {}, Some(hash(data)), CountOf(meta), corrupt, errors));
  }

  // ----- Reading

  /** The chunk layout is usable for reading: the number of chunks read back is unlimited. */
  predicate Readable(meta: Meta) {
    meta.chunkCount.Some? && meta.chunkSizeBytes.Some? && meta.chunkCount.value >= 0 && meta.chunkSizeBytes.value > 0
  }

  method ReadBytes(engineChunkSize: nat, dir: Dir) returns (r: Result<Bytes, StorageError>)
    requires engineChunkSize > 0
    ensures dir.meta.NoMeta? ==> r == Err(ObjectNotFound)
    ensures dir.meta.Unreadable? || (dir.meta.Json? && !Readable(dir.meta.meta)) ==> r == Err(BadMetadata)
    ensures dir.meta.Json? && Readable(dir.meta.meta) ==>
              var count := dir.meta.meta.chunkCount.value;
              if forall i :: 0 <= i < count ==> ChunkName(i) in dir.files
              then r == Ok(Payload(dir.files, count))
              else r == Err(ChunkUnreadable)
  {
    if dir.meta.NoMeta? {
      return Err(ObjectNotFound);
    }
    if dir.meta.Unreadable? || !Readable(dir.meta.meta) {
      return Err(BadMetadata);
    }
    var count := dir.meta.meta.chunkCount.value;
    var readSize := Min(dir.meta.meta.chunkSizeBytes.value, engineChunkSize);
    var data: Bytes := [];
    for index := 0 to count
      invariant data == Payload(dir.files, index)
      invariant forall i :: 0 <= i < index ==> ChunkName(i) in dir.files
    {
      if ChunkName(index) !in dir.files {
        return Err(ChunkUnreadable);
      }
      var chunk := ReadChunk(dir.files[ChunkName(index)], readSize);
      data := data + chunk;
    }
    r := Ok(data);
  }
}
