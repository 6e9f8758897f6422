/**
  How the storage engine lays an object out on disk: payload cut into equal chunks, one file a
  chunk, file names that carry the chunk index.
 */
module ChunkLayout {
  import opened Base

  const CHUNK_PREFIX := "chunk-"
  const NAME_WIDTH := 6
  const MAX_VERIFY_CHUNKS := 1_000_000

  // ----- Cutting a payload into chunks

  /** The canonical split: full chunks of `size` bytes, then one shorter, non-empty rest. */
  function Split(data: Bytes, size: nat): (chunks: seq<Bytes>)
    requires size > 0
    decreases |data|
  {
    if |data| == 0 then []
    else if |data| <= size then [data]
    else [data[..size]] + Split(data[size..], size)
  }

  function Flatten(chunks: seq<Bytes>): (data: Bytes) {
    if chunks == [] then [] else chunks[0] + Flatten(chunks[1..])
  }

  predicate AllFull(chunks: seq<Bytes>, size: nat) {
    forall i :: 0 <= i < |chunks| ==> |chunks[i]| == size
  }

  /** All chunks full except a last one that is at most full and never empty. */
  predicate Canonical(chunks: seq<Bytes>, size: nat) {
    && (forall i :: 0 <= i < |chunks| - 1 ==> |chunks[i]| == size)
    && (chunks != [] ==> 0 < |chunks[|chunks| - 1]| <= size)
  }

  /** The number of chunks that `verify` derives from the object size. */
  function ChunkCount(size: nat, chunkSize: nat): nat
    requires chunkSize > 0
  {
    if size == 0 then 0 else (size + chunkSize - 1) / chunkSize
  }

  lemma {:induction false} FlattenAppend(a: seq<Bytes>, b: seq<Bytes>)
    ensures Flatten(a + b) == Flatten(a) + Flatten(b)
  {
    if a == [] {
      assert a + b == b;
    } else {
      assert (a + b)[1..] == a[1..] + b;
      FlattenAppend(a[1..], b);
    }
  }

  lemma FlattenSingle(chunk: Bytes)
    ensures Flatten([chunk]) == chunk
  {
    assert [chunk][1..] == [];
  }

  lemma FlattenSnoc(chunks: seq<Bytes>, chunk: Bytes)
    ensures Flatten(chunks + [chunk]) == Flatten(chunks) + chunk
  {
    FlattenAppend(chunks, [chunk]);
    FlattenSingle(chunk);
  }

  /** A payload is recovered from its split, and the split is canonical. */
  lemma {:induction false} SplitSound(data: Bytes, size: nat)
    requires size > 0
    ensures Canonical(Split(data, size), size)
    ensures Flatten(Split(data, size)) == data
    ensures data != [] ==> Split(data, size) != []
    decreases |data|
  {
    if |data| == 0 {
    } else if |data| <= size {
      FlattenSingle(data);
    } else {
      var rest := Split(data[size..], size);
      SplitSound(data[size..], size);
      assert ([data[..size]] + rest)[1..] == rest;
    }
  }

  /** There is only one canonical way to cut a payload. */
  lemma {:induction false} CanonicalIsSplit(chunks: seq<Bytes>, size: nat)
    requires size > 0
    requires Canonical(chunks, size)
    ensures chunks == Split(Flatten(chunks), size)
    decreases |chunks|
  {
    if chunks == [] {
    } else if |chunks| == 1 {
      FlattenSingle(chunks[0]);
      assert chunks == [chunks[0]];
    } else {
      var rest := chunks[1..];
      CanonicalIsSplit(rest, size);
      var data := Flatten(chunks);
      assert |chunks[0]| == size;
      assert rest[|rest| - 1] == chunks[|chunks| - 1];
      FlattenNonEmpty(rest, size);
      assert data[..size] == chunks[0] && data[size..] == Flatten(rest);
      assert chunks == [chunks[0]] + rest;
    }
  }

  lemma {:induction false} FlattenNonEmpty(chunks: seq<Bytes>, size: nat)
    requires Canonical(chunks, size) && chunks != []
    ensures |Flatten(chunks)| > 0
  {
    var n := |chunks| - 1;
    assert chunks == chunks[..n] + [chunks[n]];
    FlattenSnoc(chunks[..n], chunks[n]);
  }

  lemma {:induction false} FlattenFullLength(chunks: seq<Bytes>, size: nat)
    requires AllFull(chunks, size)
    ensures |Flatten(chunks)| == |chunks| * size
  {
    if chunks != [] {
      FlattenFullLength(chunks[1..], size);
      assert |Flatten(chunks)| == size + (|chunks| - 1) * size;
      assert |chunks| * size == (|chunks| - 1) * size + size by {
        MulSucc(|chunks| - 1, size);
      }
    }
  }

  lemma MulSucc(a: int, b: int)
    ensures (a + 1) * b == a * b + b
  {
  }

  /** The quotient is pinned by bracketing the dividend. */
  lemma DivBracket(a: int, b: int, q: int)
    requires b > 0
    requires q * b <= a < (q + 1) * b
    ensures a / b == q
  {
    var d := a / b;
    assert d < q ==> (d + 1) * b <= q * b;
    assert d > q ==> (q + 1) * b <= d * b;
  }

  /** A canonical sequence has ceil(size / chunkSize) chunks, and its last one holds the remainder. */
  lemma {:induction false} CanonicalCount(chunks: seq<Bytes>, size: nat)
    requires size > 0
    requires Canonical(chunks, size)
    ensures |chunks| == ChunkCount(|Flatten(chunks)|, size)
    ensures chunks != [] ==>
              |chunks[|chunks| - 1]| == |Flatten(chunks)| - (|chunks| - 1) * size
  {
    if chunks != [] {
      var n := |chunks| - 1;
      var last := chunks[n];
      assert chunks == chunks[..n] + [last];
      FlattenSnoc(chunks[..n], last);
      FlattenFullLength(chunks[..n], size);
      var total := |Flatten(chunks)|;
      assert total == n * size + |last|;
      MulSucc(n, size);
      MulSucc(n + 1, size);
      DivBracket(total + size - 1, size, n + 1);
    }
  }

  /** The chunk size that `verify` expects at an index; None outside the layout. */
  function ExpectedChunkSize(size: Option<int>, chunkSize: Option<int>, count: Option<int>, index: int): Option<int> {
    if size.None? || chunkSize.None? || count.None? || count.value <= 0 || index < 0 || index >= count.value then
      None
    else if index < count.value - 1 then
      chunkSize
    else
      Some(size.value - (count.value - 1) * chunkSize.value)
  }

  /** On a canonical object the expected sizes are the real ones, so they add up to the object size. */
  lemma ExpectedSizesMatch(chunks: seq<Bytes>, size: nat, index: nat)
    requires size > 0
    requires Canonical(chunks, size)
    requires index < |chunks|
    ensures ExpectedChunkSize(Some(|Flatten(chunks)|), Some(size), Some(|chunks|), index) == Some(|chunks[index]|)
  {
    CanonicalCount(chunks, size);
  }

  // ----- Chunk file names

  function DigitChar(d: nat): char
    requires d < 10
  {
    '0' + d as char
  }

  predicate IsDigit(c: char) {
    '0' <= c <= '9'
  }

  function DigitValue(c: char): (d: nat)
    requires IsDigit(c)
    ensures d < 10 && DigitChar(d) == c
  {
    c as int - '0' as int
  }

  /** The `width` low decimal digits of n, most significant first. */
  function Decimal(n: nat, width: nat): (s: string)
    ensures |s| == width && forall i :: 0 <= i < width ==> IsDigit(s[i])
  {
    if width == 0 then "" else Decimal(n / 10, width - 1) + [DigitChar(n % 10)]
  }

  function DecimalValue(s: string): nat
    requires forall i :: 0 <= i < |s| ==> IsDigit(s[i])
  {
    if s == "" then 0 else 10 * DecimalValue(s[..|s| - 1]) + DigitValue(s[|s| - 1])
  }

  function Pow10(e: nat): nat {
    if e == 0 then 1 else 10 * Pow10(e - 1)
  }

  function DecimalWidth(n: nat): nat {
    if n < 10 then 1 else 1 + DecimalWidth(n / 10)
  }

  lemma {:induction false} DecimalRoundTrip(n: nat, width: nat)
    requires n < Pow10(width)
    ensures DecimalValue(Decimal(n, width)) == n
  {
    if width > 0 {
      DecimalRoundTrip(n / 10, width - 1);
      assert Decimal(n, width)[..width - 1] == Decimal(n / 10, width - 1);
    }
  }

  lemma {:induction false} DecimalOfValue(s: string)
    requires forall i :: 0 <= i < |s| ==> IsDigit(s[i])
    ensures DecimalValue(s) < Pow10(|s|)
    ensures Decimal(DecimalValue(s), |s|) == s
  {
    if s != "" {
      var n := |s| - 1;
      DecimalOfValue(s[..n]);
      assert DecimalValue(s) / 10 == DecimalValue(s[..n]);
      assert s == s[..n] + [s[n]];
    }
  }

  lemma {:induction false} WidthFits(n: nat)
    ensures n < Pow10(DecimalWidth(n))
  {
    if n >= 10 {
      WidthFits(n / 10);
    }
  }

  lemma {:induction false} Pow10Monotone(a: nat, b: nat)
    requires a <= b
    ensures Pow10(a) <= Pow10(b)
    decreases b
  {
    if a < b {
      Pow10Monotone(a, b - 1);
    }
  }

  /** The width of an index in a file name: zero padded to six digits, wider when it must be. */
  function NameDigits(index: nat): nat {
    Max(NAME_WIDTH, DecimalWidth(index))
  }

  function ChunkName(index: nat): string {
    CHUNK_PREFIX + Decimal(index, NameDigits(index))
  }

  predicate IsChunkEntry(name: string) {
    CHUNK_PREFIX <= name
  }

  /** Only six-digit suffixes parse, whatever the first six characters are. */
  function ParseChunkIndex(name: string): Option<nat> {
    if |name| != |CHUNK_PREFIX| + NAME_WIDTH then None
    else
      var suffix := name[|CHUNK_PREFIX|..];
      if forall i :: 0 <= i < |suffix| ==> IsDigit(suffix[i]) then Some(DecimalValue(suffix)) else None
  }

  lemma NameDigitsFit(index: nat)
    ensures index < Pow10(NameDigits(index))
  {
    WidthFits(index);
    Pow10Monotone(DecimalWidth(index), NameDigits(index));
  }

  /** Distinct chunks live in distinct files, whatever their number. */
  lemma ChunkNameInjective(i: nat, j: nat)
    requires ChunkName(i) == ChunkName(j)
    ensures i == j
  {
    var a, b := Decimal(i, NameDigits(i)), Decimal(j, NameDigits(j));
    assert ChunkName(i)[|CHUNK_PREFIX|..] == a;
    assert ChunkName(j)[|CHUNK_PREFIX|..] == b;
    NameDigitsFit(i);
    NameDigitsFit(j);
    DecimalRoundTrip(i, NameDigits(i));
    DecimalRoundTrip(j, NameDigits(j));
  }

  lemma {:induction false} WidthOfSmall(n: nat, width: nat)
    requires width > 0 && n < Pow10(width)
    ensures DecimalWidth(n) <= width
  {
    if n >= 10 {
      assert Pow10(1) == 10;
      WidthOfSmall(n / 10, width - 1);
    }
  }

  lemma Pow10OfNameWidth()
    ensures Pow10(NAME_WIDTH) == MAX_VERIFY_CHUNKS
  {
    assert Pow10(3) == 1000;
    assert Pow10(6) == 1_000_000;
  }

  /** Below one million chunks a name parses back to its index, and only to names written for it. */
  lemma ChunkNameRoundTrip(name: string, index: nat)
    requires index < MAX_VERIFY_CHUNKS
    ensures IsChunkEntry(name) && ParseChunkIndex(name) == Some(index) <==> name == ChunkName(index)
  {
    Pow10OfNameWidth();
    WidthOfSmall(index, NAME_WIDTH);
    DecimalRoundTrip(index, NAME_WIDTH);
    assert ChunkName(index)[|CHUNK_PREFIX|..] == Decimal(index, NAME_WIDTH);
    if IsChunkEntry(name) && ParseChunkIndex(name) == Some(index) {
      var suffix := name[|CHUNK_PREFIX|..];
      DecimalOfValue(suffix);
      assert name == CHUNK_PREFIX + suffix;
    }
  }

  /** From one million on, names no longer parse. */
  lemma WideNamesDoNotParse(index: nat)
    requires index >= MAX_VERIFY_CHUNKS
    ensures ParseChunkIndex(ChunkName(index)) == None
  {
    Pow10OfNameWidth();
    WidthFits(index);
    if DecimalWidth(index) <= NAME_WIDTH {
      Pow10Monotone(DecimalWidth(index), NAME_WIDTH);
      assert false;
    }
  }
}
