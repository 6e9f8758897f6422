/** The two write loops of the storage engine, and the directory both leave. */
module ChunkWriter {
  import opened Base
  import opened ChunkLayout
  import opened ObjectDirectory

  /** What one more chunk file adds to the files, the digest list and the payload. */
  lemma AppendChunk(hash: Hash, chunks: seq<Bytes>, chunk: Bytes)
    ensures ChunkFiles(chunks + [chunk]) == ChunkFiles(chunks)[ChunkName(|chunks|) := chunk]
    ensures Digests(hash, chunks + [chunk]) == Digests(hash, chunks) + [hash(chunk)]
    ensures Flatten(chunks + [chunk]) == Flatten(chunks) + chunk
  {
    ChunkFilesSnoc(chunks, chunk);
    FlattenSnoc(chunks, chunk);
    assert (chunks + [chunk])[..|chunks|] == chunks;
  }

  lemma FlattenPrefix(pieces: seq<Bytes>, i: nat)
    requires i < |pieces|
    ensures Flatten(pieces[..i + 1]) == Flatten(pieces[..i]) + pieces[i]
  {
    assert pieces[..i + 1] == pieces[..i] + [pieces[i]];
    FlattenSnoc(pieces[..i], pieces[i]);
  }

  lemma WholeIsPrefix(pieces: seq<Bytes>)
    ensures pieces[..|pieces|] == pieces
  {
  }

  /** Full chunks followed by a rest that is empty or shorter than a chunk are the split of their bytes. */
  lemma CloseChunks(full: seq<Bytes>, rest: Bytes, size: nat)
    requires size > 0 && AllFull(full, size) && |rest| < size
    ensures Split(Flatten(full) + rest, size) == if rest == [] then full else full + [rest]
  {
    var chunks := if rest == [] then full else full + [rest];
    FlattenSnoc(full, rest);
    assert rest == [] ==> Flatten(full) + rest == Flatten(full);
    CanonicalIsSplit(chunks, size);
  }

  // ----- The asynchronous loop

  /**
    Local state of the asynchronous loop: every incoming piece is appended straight to the open
    chunk file, which is closed when it is full. `open` says whether a chunk file is open and
    `written` bytes are in it; the digest fields hold the bytes fed to the running hashes.
   */
  datatype Stream = Stream(
    files: map<string, Bytes>, index: nat, open: bool, written: nat, digests: seq<string>,
    chunkDigest: Bytes, objectDigest: Bytes, size: nat)

  /** The chunk files closed so far are full, and with the open one they hold all bytes received. */
  ghost predicate StreamOk(hash: Hash, chunkSize: nat, w: Stream, closed: seq<Bytes>) {
    && StreamBytes(hash, chunkSize, w, closed)
    && (w.open ==> 0 < w.written < chunkSize)
  }

  ghost predicate StreamBytes(hash: Hash, chunkSize: nat, w: Stream, closed: seq<Bytes>) {
    && AllFull(closed, chunkSize)
    && w.index == |closed|
    && w.digests == Digests(hash, closed)
    && w.objectDigest == Flatten(closed) + (if w.open then w.chunkDigest else [])
    && w.size == |w.objectDigest|
    && (w.open ==> w.written == |w.chunkDigest|)
    && w.files == (if w.open then ChunkFiles(closed)[ChunkName(w.index) := w.chunkDigest] else ChunkFiles(closed))
  }

  /** One round of the inner loop: open a chunk file if none is, append the part that fits, close a full one. */
  method StreamAppend(hash: Hash, chunkSize: nat, w: Stream, incoming: Bytes, offset: nat, ghost closed: seq<Bytes>)
    returns (w': Stream, offset': nat, ghost closed': seq<Bytes>)
    requires chunkSize > 0 && StreamOk(hash, chunkSize, w, closed)
    requires offset < |incoming|
    ensures StreamOk(hash, chunkSize, w', closed')
    ensures offset < offset' <= |incoming|
    ensures w'.objectDigest == w.objectDigest + incoming[offset..offset']
  {
    w', offset' := StreamFill(hash, chunkSize, w, incoming, offset, closed);
    closed' := closed;
    if w'.written == chunkSize {
      AppendChunk(hash, closed, w'.chunkDigest);
      closed' := closed + [w'.chunkDigest];
      w' := w'.(open := false, digests := w'.digests + [hash(w'.chunkDigest)], index := w'.index + 1);
    }
  }

  /** The first half of a round: the open chunk file takes as much of the piece as fits. */
  method StreamFill(hash: Hash, chunkSize: nat, w: Stream, incoming: Bytes, offset: nat, ghost closed: seq<Bytes>)
    returns (w': Stream, offset': nat)
    requires chunkSize > 0 && StreamOk(hash, chunkSize, w, closed)
    requires offset < |incoming|
    ensures StreamBytes(hash, chunkSize, w', closed) && w'.open && 0 < w'.written <= chunkSize
    ensures offset < offset' <= |incoming|
    ensures w'.objectDigest == w.objectDigest + incoming[offset..offset']
  {
    w' := StreamOpen(hash, chunkSize, w, closed);
    var remaining := chunkSize - w'.written;
    var piece := incoming[offset..Min(offset + remaining, |incoming|)];
    offset' := offset + |piece|;
    FillKeeps(hash, chunkSize, w', piece, closed);
    w' := Fill(w', piece);
  }

  /** The open chunk file, both running hashes and both counters take a piece. */
  function Fill(w: Stream, piece: Bytes): Stream
    requires ChunkName(w.index) in w.files
  {
    w.(files := w.files[ChunkName(w.index) := w.files[ChunkName(w.index)] + piece],
       chunkDigest := w.chunkDigest + piece,
       objectDigest := w.objectDigest + piece,
       written := w.written + |piece|,
       size := w.size + |piece|)
  }

  lemma FillKeeps(hash: Hash, chunkSize: nat, w: Stream, piece: Bytes, closed: seq<Bytes>)
    requires StreamBytes(hash, chunkSize, w, closed) && w.open
    ensures ChunkName(w.index) in w.files && StreamBytes(hash, chunkSize, Fill(w, piece), closed)
  {
    Regroup(Flatten(closed), w.chunkDigest, piece);
    Rewrite(ChunkFiles(closed), ChunkName(w.index), w.chunkDigest, w.chunkDigest + piece);
  }

  lemma Regroup(a: Bytes, b: Bytes, c: Bytes)
    ensures (a + b) + c == a + (b + c)
  {
  }

  lemma Rewrite(files: map<string, Bytes>, name: string, old': Bytes, new': Bytes)
    ensures files[name := old'][name := new'] == files[name := new']
  {
  }

  /** Open the next chunk file unless one is open. */
  method StreamOpen(hash: Hash, chunkSize: nat, w: Stream, ghost closed: seq<Bytes>) returns (w': Stream)
    requires chunkSize > 0 && StreamOk(hash, chunkSize, w, closed)
    ensures StreamBytes(hash, chunkSize, w', closed) && w'.open && w'.written < chunkSize
    ensures w'.objectDigest == w.objectDigest
  {
    w' := w;
    if !w'.open {
      w' := w'.(files := w'.files[ChunkName(w'.index) := []], open := true, written := 0, chunkDigest := []);
    }
  }

  /** The inner loop over one incoming piece. */
  method StreamPiece(hash: Hash, chunkSize: nat, w: Stream, incoming: Bytes, ghost closed: seq<Bytes>)
    returns (w': Stream, ghost closed': seq<Bytes>)
    requires chunkSize > 0 && StreamOk(hash, chunkSize, w, closed)
    ensures StreamOk(hash, chunkSize, w', closed')
    ensures w'.objectDigest == w.objectDigest + incoming
  {
    w', closed' := w, closed;
    var offset := 0;
    while offset < |incoming|
      invariant 0 <= offset <= |incoming|
      invariant StreamOk(hash, chunkSize, w', closed')
      invariant w'.objectDigest == w.objectDigest + incoming[..offset]
    {
      ghost var from := offset;
      w', offset, closed' := StreamAppend(hash, chunkSize, w', incoming, offset, closed');
      assert incoming[..from] + incoming[from..offset] == incoming[..offset];
    }
    assert incoming[..offset] == incoming;
  }

  /** After the last piece: close an open chunk file and write the metadata. */
  method StreamFinish(hash: Hash, objectId: string, versionId: string, chunkSize: nat, w: Stream,
                      ghost closed: seq<Bytes>)
    returns (dir: Dir)
    requires chunkSize > 0 && StreamOk(hash, chunkSize, w, closed)
    ensures dir == StoredDir(hash, objectId, versionId, chunkSize, w.objectDigest)
  {
    var index, digests := w.index, w.digests;
    CloseChunks(closed, if w.open then w.chunkDigest else [], chunkSize);
    if w.open {
      AppendChunk(hash, closed, w.chunkDigest);
      digests := digests + [hash(w.chunkDigest)];
      index := index + 1;
    }
    SplitSound(w.objectDigest, chunkSize);
    dir := Dir(
      Json(Meta(Some(objectId), Some(versionId), Some(w.size), Some(chunkSize), Some(index),
                Some(hash(w.objectDigest)), Some(digests))),
      w.files);
  }

  method WriteStream(hash: Hash, objectId: string, versionId: string, chunkSize: nat, pieces: seq<Bytes>)
    returns (dir: Dir, size: nat)
    requires chunkSize > 0
    ensures dir == StoredDir(hash, objectId, versionId, chunkSize, Flatten(pieces))
    ensures size == |Flatten(pieces)|
  {
    var w := Stream(map[], 0, false, 0, [], [], [], 0);
    ghost var closed: seq<Bytes> := [];
    for p := 0 to |pieces|
      invariant StreamOk(hash, chunkSize, w, closed)
      invariant w.objectDigest == Flatten(pieces[..p])
    {
      FlattenPrefix(pieces, p);
      var incoming := pieces[p];
      if incoming == [] {
        continue;
      }
      w, closed := StreamPiece(hash, chunkSize, w, incoming, closed);
    }
    WholeIsPrefix(pieces);
    size := w.size;
    dir := StreamFinish(hash, objectId, versionId, chunkSize, w, closed);
  }

  // ----- The buffering loop

  /** Local state of the synchronous loop: bytes gather in memory and a full chunk becomes a file. */
  datatype Buffered = Buffered(
    files: map<string, Bytes>, index: nat, buffer: Bytes, digests: seq<string>,
    chunkDigest: Bytes, objectDigest: Bytes, size: nat)

  ghost predicate BufferedOk(hash: Hash, chunkSize: nat, w: Buffered, closed: seq<Bytes>) {
    && AllFull(closed, chunkSize)
    && w.index == |closed|
    && w.digests == Digests(hash, closed)
    && w.chunkDigest == w.buffer && |w.buffer| < chunkSize
    && w.objectDigest == Flatten(closed) + w.buffer
    && w.size == |w.objectDigest|
    && w.files == ChunkFiles(closed)
  }

  method BufferAppend(hash: Hash, chunkSize: nat, w: Buffered, incoming: Bytes, offset: nat, ghost closed: seq<Bytes>)
    returns (w': Buffered, offset': nat, ghost closed': seq<Bytes>)
    requires chunkSize > 0 && BufferedOk(hash, chunkSize, w, closed)
    requires offset < |incoming|
    ensures BufferedOk(hash, chunkSize, w', closed')
    ensures offset < offset' <= |incoming|
    ensures w'.objectDigest == w.objectDigest + incoming[offset..offset']
  {
    closed' := closed;
    var remaining := chunkSize - |w.buffer|;
    var piece := incoming[offset..Min(offset + remaining, |incoming|)];
    offset' := offset + |piece|;
    w' := w.(buffer := w.buffer + piece,
             chunkDigest := w.chunkDigest + piece,
             objectDigest := w.objectDigest + piece,
             size := w.size + |piece|);
    assert w'.objectDigest == Flatten(closed) + w'.buffer;
    if |w'.buffer| == chunkSize {
      AppendChunk(hash, closed, w'.buffer);
      closed' := closed + [w'.buffer];
      w' := w'.(files := w'.files[ChunkName(w'.index) := w'.buffer],
                digests := w'.digests + [hash(w'.chunkDigest)],
                buffer := [], chunkDigest := [], index := w'.index + 1);
    }
  }

  /** The inner loop over one incoming piece. */
  method BufferPiece(hash: Hash, chunkSize: nat, w: Buffered, incoming: Bytes, ghost closed: seq<Bytes>)
    returns (w': Buffered, ghost closed': seq<Bytes>)
    requires chunkSize > 0 && BufferedOk(hash, chunkSize, w, closed)
    ensures BufferedOk(hash, chunkSize, w', closed')
    ensures w'.objectDigest == w.objectDigest + incoming
  {
    w', closed' := w, closed;
    var offset := 0;
    while offset < |incoming|
      invariant 0 <= offset <= |incoming|
      invariant BufferedOk(hash, chunkSize, w', closed')
      invariant w'.objectDigest == w.objectDigest + incoming[..offset]
    {
      ghost var from := offset;
      w', offset, closed' := BufferAppend(hash, chunkSize, w', incoming, offset, closed');
      assert incoming[..from] + incoming[from..offset] == incoming[..offset];
    }
    assert incoming[..offset] == incoming;
  }

  /** After the last piece: a non-empty buffer becomes the last chunk file. */
  method BufferFinish(hash: Hash, objectId: string, versionId: string, chunkSize: nat, w: Buffered,
                      ghost closed: seq<Bytes>)
    returns (dir: Dir)
    requires chunkSize > 0 && BufferedOk(hash, chunkSize, w, closed)
    ensures dir == StoredDir(hash, objectId, versionId, chunkSize, w.objectDigest)
  {
    var files, index, digests := w.files, w.index, w.digests;
    CloseChunks(closed, w.buffer, chunkSize);
    if w.buffer != [] {
      AppendChunk(hash, closed, w.buffer);
      files := files[ChunkName(index) := w.buffer];
      digests := digests + [hash(w.chunkDigest)];
      index := index + 1;
    }
    SplitSound(w.objectDigest, chunkSize);
    dir := Dir(
      Json(Meta(Some(objectId), Some(versionId), Some(w.size), Some(chunkSize), Some(index),
                Some(hash(w.objectDigest)), Some(digests))),
      files);
  }

  method WriteIterable(hash: Hash, objectId: string, versionId: string, chunkSize: nat, pieces: seq<Bytes>)
    returns (dir: Dir, size: nat)
    requires chunkSize > 0
    ensures dir == StoredDir(hash, objectId, versionId, chunkSize, Flatten(pieces))
    ensures size == |Flatten(pieces)|
  {
    var w := Buffered(map[], 0, [], [], [], [], 0);
    ghost var closed: seq<Bytes> := [];
    for p := 0 to |pieces|
      invariant BufferedOk(hash, chunkSize, w, closed)
      invariant w.objectDigest == Flatten(pieces[..p])
    {
      FlattenPrefix(pieces, p);
      var incoming := pieces[p];
      if incoming == [] {
        continue;
      }
      w, closed := BufferPiece(hash, chunkSize, w, incoming, closed);
    }
    WholeIsPrefix(pieces);
    size := w.size;
    dir := BufferFinish(hash, objectId, versionId, chunkSize, w, closed);
  }
}
