/** What one object version looks like on disk. */
module ObjectDirectory {
  import opened Base
  import opened ChunkLayout

  const MAX_IDENTIFIER_LENGTH := 128
  const UPLOAD_SUFFIX := ".upload"

  /** Object id and version id; the version's directory carries the version id as its name. */
  type Key = (string, string)

  predicate ValidId(id: string) {
    0 < |id| <= MAX_IDENTIFIER_LENGTH && id != "." && id != ".." && '/' !in id && '\\' !in id && '\0' !in id
  }

  predicate EndsWith(s: string, suffix: string) {
    |suffix| <= |s| && s[|s| - |suffix|..] == suffix
  }

  /** Directories that a restart takes for leftovers of an upload: ".*.upload". */
  predicate LooksStaged(versionId: string) {
    |versionId| > |UPLOAD_SUFFIX| && versionId[0] == '.' && EndsWith(versionId, UPLOAD_SUFFIX)
  }

  predicate ValidKey(key: Key) {
    ValidId(key.0) && ValidId(key.1)
  }

  /**
    The JSON metadata file as read back. A field is None when it is missing or has the wrong type;
    an entry of `chunkChecksums` that is not text is any string that is no digest.
   */
  datatype Meta = Meta(
    objectId: Option<string>,
    versionId: Option<string>,
    sizeBytes: Option<int>,
    chunkSizeBytes: Option<int>,
    chunkCount: Option<int>,
    checksum: Option<string>,
    chunkChecksums: Option<seq<string>>)

  datatype MetaFile = NoMeta | Unreadable | Json(meta: Meta)

  /** The metadata file and every other directory entry, by name. */
  datatype Dir = Dir(meta: MetaFile, files: map<string, Bytes>)

  function ChunkFiles(chunks: seq<Bytes>): map<string, Bytes> {
    if chunks == [] then map[]
    else
      var n := |chunks| - 1;
      ChunkFiles(chunks[..n])[ChunkName(n) := chunks[n]]
  }

  function Digests(hash: Hash, chunks: seq<Bytes>): seq<string> {
    if chunks == [] then []
    else
      var n := |chunks| - 1;
      Digests(hash, chunks[..n]) + [hash(chunks[n])]
  }

  function MetaOf(hash: Hash, objectId: string, versionId: string, chunkSize: nat, chunks: seq<Bytes>): Meta {
    Meta(Some(objectId), Some(versionId), Some(|Flatten(chunks)|), Some(chunkSize), Some(|chunks|),
         Some(hash(Flatten(chunks))), Some(Digests(hash, chunks)))
  }

  /** The directory that a successful write of `data` has to leave behind. */
  function StoredDir(hash: Hash, objectId: string, versionId: string, chunkSize: nat, data: Bytes): Dir
    requires chunkSize > 0
  {
    var chunks := Split(data, chunkSize);
    Dir(Json(MetaOf(hash, objectId, versionId, chunkSize, chunks)), ChunkFiles(chunks))
  }

  lemma ChunkFilesSnoc(chunks: seq<Bytes>, chunk: Bytes)
    ensures ChunkFiles(chunks + [chunk]) == ChunkFiles(chunks)[ChunkName(|chunks|) := chunk]
  {
    assert (chunks + [chunk])[..|chunks|] == chunks;
  }

  lemma {:induction false} DigestsContent(hash: Hash, chunks: seq<Bytes>)
    ensures |Digests(hash, chunks)| == |chunks|
    ensures forall i :: 0 <= i < |chunks| ==> Digests(hash, chunks)[i] == hash(chunks[i])
  {
    if chunks != [] {
      DigestsContent(hash, chunks[..|chunks| - 1]);
    }
  }

  /** The chunk files are exactly one file a chunk, under that chunk's name. */
  lemma {:induction false} ChunkFilesContent(chunks: seq<Bytes>)
    ensures forall i :: 0 <= i < |chunks| ==>
              ChunkName(i) in ChunkFiles(chunks) && ChunkFiles(chunks)[ChunkName(i)] == chunks[i]
    ensures forall name :: name in ChunkFiles(chunks) ==> exists i :: 0 <= i < |chunks| && name == ChunkName(i)
  {
    if chunks != [] {
      var n := |chunks| - 1;
      ChunkFilesContent(chunks[..n]);
      forall i | 0 <= i < |chunks|
        ensures ChunkName(i) in ChunkFiles(chunks) && ChunkFiles(chunks)[ChunkName(i)] == chunks[i]
      {
        if i < n && ChunkName(i) == ChunkName(n) {
          ChunkNameInjective(i, n);
        }
        if i < n {
          assert chunks[..n][i] == chunks[i];
        }
      }
    }
  }
}
