/** What verification and reading guarantee about objects that the engine itself wrote. */
module ObjectIntegrity {
  import opened Base
  import opened ChunkLayout
  import opened ObjectDirectory
  import opened ObjectVerifier
  import ChunkWriter

  /** The entries that verification looks at. */
  function ChunkEntries(files: map<string, Bytes>): map<string, Bytes> {
    map name | name in files && IsChunkEntry(name) :: files[name]
  }

  lemma {:induction false} PayloadOfChunks(files: map<string, Bytes>, chunks: seq<Bytes>, n: nat)
    requires n <= |chunks|
    requires forall i :: 0 <= i < n ==> ChunkName(i) in files && files[ChunkName(i)] == chunks[i]
    ensures Payload(files, n) == Flatten(chunks[..n])
  {
    if n > 0 {
      PayloadOfChunks(files, chunks, n - 1);
      assert chunks[..n] == chunks[..n - 1] + [chunks[n - 1]];
      FlattenSnoc(chunks[..n - 1], chunks[n - 1]);
    }
  }

  /** Files that hold the chunks of a payload, whatever else is beside them, read back as that payload. */
  lemma PayloadRoundTrip(files: map<string, Bytes>, data: Bytes, chunkSize: nat)
    requires chunkSize > 0
    requires var chunks := Split(data, chunkSize);
             forall i :: 0 <= i < |chunks| ==> ChunkName(i) in files && files[ChunkName(i)] == chunks[i]
    ensures Payload(files, |Split(data, chunkSize)|) == data
  {
    var chunks := Split(data, chunkSize);
    PayloadOfChunks(files, chunks, |chunks|);
    assert chunks[..|chunks|] == chunks;
    SplitSound(data, chunkSize);
  }

  /** The metadata of a written object is sound as long as the chunk count is within the limit. */
  lemma StoredMetaSound(hash: Hash, objectId: string, versionId: string, chunkSize: nat, data: Bytes)
    requires chunkSize > 0 && YieldsDigests(hash)
    ensures var dir := StoredDir(hash, objectId, versionId, chunkSize, data);
            && MetaSound(objectId, versionId, dir.meta.meta) == (|Split(data, chunkSize)| <= MAX_VERIFY_CHUNKS)
            && dir.meta.meta.sizeBytes == Some(|data|)
            && dir.meta.meta.checksum == Some(hash(data))
  {
    var chunks := Split(data, chunkSize);
    SplitSound(data, chunkSize);
    CanonicalCount(chunks, chunkSize);
    DigestsContent(hash, chunks);
    forall i | 0 <= i < |chunks| ensures IsSha256(Digests(hash, chunks)[i]) {
      assert Digests(hash, chunks)[i] == hash(chunks[i]);
    }
  }

  /** Entries named after one of the first `count` chunks are the only ones that are not unexpected. */
  lemma ExpectedNames(count: nat, name: string)
    requires count <= MAX_VERIFY_CHUNKS
    requires IsChunkEntry(name)
    ensures !Unexpected(Some(count), name) <==> exists i :: 0 <= i < count && name == ChunkName(i)
  {
    if !Unexpected(Some(count), name) {
      ChunkNameRoundTrip(name, ParseChunkIndex(name).value);
    }
    forall i | 0 <= i < count && name == ChunkName(i) ensures !Unexpected(Some(count), name) {
      ChunkNameRoundTrip(name, i);
    }
  }

  /** With an injective hash, a chunk of a written object is good exactly when its file is untouched. */
  lemma GoodChunkIsUntouched(hash: Hash, meta: Meta, chunkSize: nat, chunks: seq<Bytes>, files: map<string, Bytes>,
                             i: nat)
    requires chunkSize > 0 && Canonical(chunks, chunkSize) && |chunks| <= MAX_VERIFY_CHUNKS
    requires meta.sizeBytes == Some(|Flatten(chunks)|) && meta.chunkSizeBytes == Some(chunkSize)
    requires meta.chunkCount == Some(|chunks|) && meta.chunkChecksums == Some(Digests(hash, chunks))
    requires i < |chunks|
    ensures Untouched(chunks, files, i) ==> !BadChunk(hash, meta, files, i)
    ensures Injective(hash) && !BadChunk(hash, meta, files, i) ==> Untouched(chunks, files, i)
  {
    DigestsContent(hash, chunks);
    ExpectedSizesMatch(chunks, chunkSize, i);
    assert UsableCount(meta) == Some(|chunks|) && UsableChecksums(meta) == Digests(hash, chunks);
    assert ExpectedChunkSize(UsableSize(meta), UsableChunkSize(meta), UsableCount(meta), i) == Some(|chunks[i]|);
    if Injective(hash) && !BadChunk(hash, meta, files, i) {
      var preimage :| IsInverse(hash, preimage);
      assert preimage(hash(files[ChunkName(i)])) == preimage(hash(chunks[i]));
    }
  }

  /** Sound metadata of an object that was cut into `chunks`. */
  predicate Describes(hash: Hash, objectId: string, versionId: string, meta: Meta, chunkSize: nat, chunks: seq<Bytes>) {
    && chunkSize > 0 && Canonical(chunks, chunkSize) && |chunks| <= MAX_VERIFY_CHUNKS
    && MetaSound(objectId, versionId, meta)
    && meta == MetaOf(hash, objectId, versionId, chunkSize, chunks)
  }

  predicate Untouched(chunks: seq<Bytes>, files: map<string, Bytes>, i: nat)
    requires i < |chunks|
  {
    ChunkName(i) in files && files[ChunkName(i)] == chunks[i]
  }

  /** Stray entries never hide behind an expected index. */
  lemma CorruptIsBad(hash: Hash, meta: Meta, files: map<string, Bytes>, i: nat)
    requires UsableCount(meta).Some? && i < UsableCount(meta).value
    ensures Corrupt(hash, meta, files, i) <==> BadChunk(hash, meta, files, i)
  {
  }

  /**
    Tamper evidence. Take an object of at most a million chunks, keep its metadata and let anything
    happen to the other files. Verification accepts exactly when the "chunk-" entries are what they
    were, and an index below the chunk count is reported exactly when its file is missing or altered.
   */
  lemma TamperEvident(hash: Hash, objectId: string, versionId: string, chunkSize: nat, data: Bytes, files: map<string,
                      Bytes>)
    requires chunkSize > 0 && YieldsDigests(hash) && Injective(hash)
    requires |Split(data, chunkSize)| <= MAX_VERIFY_CHUNKS
    ensures var dir := StoredDir(hash, objectId, versionId, chunkSize, data);
            && (Sound(hash, objectId, versionId, dir.meta.meta, files) <==> ChunkEntries(files) == dir.files)
            && (forall i :: 0 <= i < |Split(data, chunkSize)| ==>
                  (Corrupt(hash, dir.meta.meta, files, i) <==> !Untouched(Split(data, chunkSize), files, i)))
  {
    var chunks := Split(data, chunkSize);
    var meta := StoredDir(hash, objectId, versionId, chunkSize, data).meta.meta;
    SplitSound(data, chunkSize);
    StoredMetaSound(hash, objectId, versionId, chunkSize, data);
    assert Describes(hash, objectId, versionId, meta, chunkSize, chunks);
    forall i | 0 <= i < |chunks|
      ensures Corrupt(hash, meta, files, i) <==> !Untouched(chunks, files, i)
    {
      CorruptIsBad(hash, meta, files, i);
      GoodChunkIsUntouched(hash, meta, chunkSize, chunks, files, i);
    }
    if Sound(hash, objectId, versionId, meta, files) {
      SoundIsUntouched(hash, objectId, versionId, meta, chunkSize, chunks, files);
    }
    if ChunkEntries(files) == ChunkFiles(chunks) {
      UntouchedIsSound(hash, objectId, versionId, meta, chunkSize, chunks, files);
    }
  }

  lemma SoundIsUntouched(hash: Hash, objectId: string, versionId: string, meta: Meta, chunkSize: nat,
                         chunks: seq<Bytes>,
                         files: map<string, Bytes>)
    requires Describes(hash, objectId, versionId, meta, chunkSize, chunks) && Injective(hash)
    requires Sound(hash, objectId, versionId, meta, files)
    ensures ChunkEntries(files) == ChunkFiles(chunks)
  {
    forall i | 0 <= i < |chunks| ensures Untouched(chunks, files, i) {
      GoodChunkIsUntouched(hash, meta, chunkSize, chunks, files, i);
    }
    SameEntries(meta, chunks, files);
  }

  lemma SameEntries(meta: Meta, chunks: seq<Bytes>, files: map<string, Bytes>)
    requires |chunks| <= MAX_VERIFY_CHUNKS && UsableCount(meta) == Some(|chunks|)
    requires forall name :: name in files ==> !Unexpected(UsableCount(meta), name)
    requires forall i :: 0 <= i < |chunks| ==> Untouched(chunks, files, i)
    ensures ChunkEntries(files) == ChunkFiles(chunks)
  {
    ChunkFilesContent(chunks);
    forall name | name in ChunkEntries(files)
      ensures name in ChunkFiles(chunks) && ChunkFiles(chunks)[name] == files[name]
    {
      ExpectedNames(|chunks|, name);
      var i :| 0 <= i < |chunks| && name == ChunkName(i);
      assert Untouched(chunks, files, i);
    }
    forall name | name in ChunkFiles(chunks)
      ensures name in ChunkEntries(files)
    {
      var i :| 0 <= i < |chunks| && name == ChunkName(i);
      assert Untouched(chunks, files, i);
    }
  }

  /** An object whose chunk entries are as written is valid and reads back. */
  lemma UntouchedIsSound(hash: Hash, objectId: string, versionId: string, meta: Meta, chunkSize: nat,
                         chunks: seq<Bytes>,
                         files: map<string, Bytes>)
    requires Describes(hash, objectId, versionId, meta, chunkSize, chunks)
    requires ChunkEntries(files) == ChunkFiles(chunks)
    ensures Sound(hash, objectId, versionId, meta, files)
    ensures Payload(files, |chunks|) == Flatten(chunks)
  {
    ChunkFilesContent(chunks);
    forall i | 0 <= i < |chunks|
      ensures Untouched(chunks, files, i) && !BadChunk(hash, meta, files, i)
    {
      assert ChunkName(i) in ChunkEntries(files);
      GoodChunkIsUntouched(hash, meta, chunkSize, chunks, files, i);
    }
    forall i | 0 <= i < |chunks| ensures ChunkName(i) in files && files[ChunkName(i)] == chunks[i] {
      assert Untouched(chunks, files, i);
    }
    PayloadOfChunks(files, chunks, |chunks|);
    assert chunks[..|chunks|] == chunks;
    forall name | name in files ensures !Unexpected(UsableCount(meta), name) {
      if IsChunkEntry(name) {
        assert name in ChunkEntries(files);
        ExpectedNames(|chunks|, name);
      }
    }
  }

  lemma StoredEntries(chunks: seq<Bytes>)
    ensures ChunkEntries(ChunkFiles(chunks)) == ChunkFiles(chunks)
  {
    ChunkFilesContent(chunks);
    forall name | name in ChunkFiles(chunks) ensures IsChunkEntry(name) {
    }
  }

  /** An intact object is reported invalid exactly when it has more than a million chunks. */
  lemma OversizedIsNeverSound(hash: Hash, objectId: string, versionId: string, chunkSize: nat, data: Bytes)
    requires chunkSize > 0 && YieldsDigests(hash)
    ensures var dir := StoredDir(hash, objectId, versionId, chunkSize, data);
            Sound(hash, objectId, versionId, dir.meta.meta, dir.files) <==>
                |Split(data, chunkSize)| <= MAX_VERIFY_CHUNKS
  {
    StoredMetaSound(hash, objectId, versionId, chunkSize, data);
    var chunks := Split(data, chunkSize);
    if |chunks| <= MAX_VERIFY_CHUNKS {
      SplitSound(data, chunkSize);
      StoredEntries(chunks);
      UntouchedIsSound(hash, objectId, versionId, MetaOf(hash, objectId, versionId, chunkSize, chunks), chunkSize,
                       chunks,
                       ChunkFiles(chunks));
    }
  }

  lemma SoundIsNotCorrupt(hash: Hash, objectId: string, versionId: string, meta: Meta, files: map<string, Bytes>)
    requires Sound(hash, objectId, versionId, meta, files)
    ensures forall i: nat :: !Corrupt(hash, meta, files, i)
  {
  }

  /** A written object reads back as its payload, whatever the number of chunks. */
  lemma StoredReads(hash: Hash, objectId: string, versionId: string, chunkSize: nat, data: Bytes)
    requires chunkSize > 0
    ensures var dir := StoredDir(hash, objectId, versionId, chunkSize, data);
            var count := |Split(data, chunkSize)|;
            && Readable(dir.meta.meta) && dir.meta.meta.chunkCount == Some(count)
            && count == ChunkCount(|data|, chunkSize)
            && (forall i :: 0 <= i < count ==> ChunkName(i) in dir.files)
            && Payload(dir.files, count) == data
  {
    SplitSound(data, chunkSize);
    CanonicalCount(Split(data, chunkSize), chunkSize);
    ChunkFilesContent(Split(data, chunkSize));
    PayloadRoundTrip(ChunkFiles(Split(data, chunkSize)), data, chunkSize);
  }

  // ----- The stored directories, and a restart

  type Store = map<Key, Dir>

  datatype WriteError = InvalidId | AlreadyExists

  /** What is stored once a restart has cleaned up the directories that look like unfinished uploads. */
  function Restarted(store: Store): Store {
    map k | k in store && !LooksStaged(k.1) :: store[k]
  }

  /** The clean-up loop of a start. */
  method Restart(store: Store) returns (kept: Store)
    ensures kept == Restarted(store)
  {
    kept := store;
    var rest := store.Keys;
    while rest != {}
      invariant rest <= store.Keys
      invariant forall k :: k in kept <==> k in store && (k in rest || !LooksStaged(k.1))
      invariant forall k :: k in kept ==> kept[k] == store[k]
      decreases rest
    {
      var k :| k in rest;
      rest := rest - {k};
      if LooksStaged(k.1) {
        kept := kept - {k};
      }
    }
  }

  /** The directory of a version, with no metadata if there is none. */
  function DirOf(store: Store, key: Key): Dir {
    if key in store then store[key] else Dir(NoMeta, map[])
  }

  method Write(hash: Hash, chunkSize: nat, store: Store, key: Key, pieces: seq<Bytes>) returns (r: Result<Store,
                                                                                                WriteError>)
    requires chunkSize > 0
    ensures r == if !ValidKey(key) then Err(InvalidId) else if key in store then Err(AlreadyExists)
                 else Ok(store[key := StoredDir(hash, key.0, key.1, chunkSize, Flatten(pieces))])
  {
    if !ValidKey(key) {
      return Err(InvalidId);
    }
    if key in store {
      return Err(AlreadyExists);
    }
    var dir, _ := ChunkWriter.WriteStream(hash, key.0, key.1, chunkSize, pieces);
    r := Ok(store[key := dir]);
  }

  /**
    Write, restart the engine with another chunk size, verify and read. Unless the version id looks like that of an
    unfinished upload, the bytes come back exactly, for any number of chunks, and verification confirms them when there
    are at most a million; if it does look like one, the restart has destroyed the object. What else was stored
    fares the same way.
   */
  method WriteVerifyRead(hash: Hash, store: Store, key: Key, writeSize: nat, restartSize: nat, pieces: seq<Bytes>)
    returns (stored: Result<Store, WriteError>, verified: Result<Verification, StorageError>, bytes: Result<Bytes,
             StorageError>)
    requires writeSize > 0 && restartSize > 0 && YieldsDigests(hash)
    ensures stored.Ok? <==> ValidKey(key) && key !in store
    ensures stored.Ok? ==> forall k :: k != key ==> (k in stored.value <==> k in store && !LooksStaged(k.1))
                                                    && (k in stored.value ==> stored.value[k] == store[k])
    ensures stored.Ok? ==>
              && (key in stored.value <==> !LooksStaged(key.1))
              && (bytes == Ok(Flatten(pieces)) <==> !LooksStaged(key.1))
              && (LooksStaged(key.1) ==> bytes == Err(ObjectNotFound) && verified == Err(ObjectNotFound))
    ensures stored.Ok? && !LooksStaged(key.1) ==>
              && verified.Ok?
              && (verified.value.valid <==> ChunkCount(|Flatten(pieces)|, writeSize) <= MAX_VERIFY_CHUNKS)
              && (verified.value.valid ==>
                    && verified.value.sizeBytes == |Flatten(pieces)|
                    && verified.value.checksum == Some(hash(Flatten(pieces)))
                    && verified.value.corruptChunks == {}
                    && verified.value.errors == [])
  {
    verified, bytes := Err(ObjectNotFound), Err(ObjectNotFound);
    stored := Write(hash, writeSize, store, key, pieces);
    if stored.Err? {
      return;
    }
    var kept := Restart(stored.value);
    stored := Ok(kept);
    verified, bytes := VerifyAndRead(hash, key, writeSize, restartSize, DirOf(kept, key), Flatten(pieces));
  }

  /** Verify and read a version that is as it was written, or gone. */
  method VerifyAndRead(hash: Hash, key: Key, writeSize: nat, readSize: nat, dir: Dir, ghost data: Bytes)
    returns (verified: Result<Verification, StorageError>, bytes: Result<Bytes, StorageError>)
    requires writeSize > 0 && readSize > 0 && YieldsDigests(hash)
    requires dir.meta.NoMeta? || dir == StoredDir(hash, key.0, key.1, writeSize, data)
    ensures dir.meta.NoMeta? ==> bytes == Err(ObjectNotFound) && verified == Err(ObjectNotFound)
    ensures !dir.meta.NoMeta? ==>
              && bytes == Ok(data) && verified.Ok?
              && (verified.value.valid <==> ChunkCount(|data|, writeSize) <= MAX_VERIFY_CHUNKS)
              && (verified.value.valid ==>
                    && verified.value.sizeBytes == |data|
                    && verified.value.checksum == Some(hash(data))
                    && verified.value.corruptChunks == {}
                    && verified.value.errors == [])
  {
    StoredReads(hash, key.0, key.1, writeSize, data);
    OversizedIsNeverSound(hash, key.0, key.1, writeSize, data);
    verified := Verify(hash, readSize, key.0, key.1, dir);
    bytes := ReadBytes(readSize, dir);
    if verified.Ok? && verified.value.valid {
      SoundIsNotCorrupt(hash, key.0, key.1, dir.meta.meta, dir.files);
    }
  }

  /** Such a version id exists, and it is accepted. */
  lemma UploadIdIsValid()
    ensures ValidId(".v.upload") && LooksStaged(".v.upload")
  {
    assert ".v.upload"[|".v.upload"| - |UPLOAD_SUFFIX|..] == UPLOAD_SUFFIX;
  }

  /** Writing under that id succeeds, and a restart destroys what was written. */
  method RestartDestroys(hash: Hash, objectId: string, writeSize: nat, restartSize: nat, pieces: seq<Bytes>)
    returns (bytes: Result<Bytes, StorageError>)
    requires writeSize > 0 && restartSize > 0 && YieldsDigests(hash) && ValidId(objectId)
    ensures bytes == Err(ObjectNotFound)
  {
    UploadIdIsValid();
    var stored, verified;
    stored, verified, bytes := WriteVerifyRead(hash, map[], (objectId, ".v.upload"), writeSize, restartSize, pieces);
  }
}
