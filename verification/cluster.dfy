/** Blob extraction from a cluster, the heart of getData.

    A cluster is a compression byte followed by its (possibly compressed)
    body. The body starts with a table of `int` offsets, measured from the
    start of the table; the first offset is the table's own size, so the
    table has firstOffset / 4 entries, and blob b occupies
    [offset[b], offset[b + 1]). A table of count entries therefore holds
    count - 1 blobs.

    getData reads the offsets it needs and the blob with a fixed sequence
    of reads and skips. For a stored cluster these work on the file stream;
    for an LZMA cluster on the decompressed stream, into a reused 4-byte
    buffer whose read counts are never checked. StoredBlob and XzBlob are
    that sequence as written, and ReadStoredBlob and ReadXzBlob perform it
    step by step. The check `blobNumber >= numberOfBlobs` lets through the
    number one past the last blob and every negative number;
    CheckedStoredBlob and CheckedXzBlob are the evidently intended check. */
module Clusters {
  import opened Wrappers
  import opened Exceptions
  import opened Bytes
  import opened Streams
  import opened Util

  const COMPRESSION_TYPE_NONE: int := 0
  const COMPRESSION_TYPE_NONE_OLD: int := 1
  const COMPRESSION_TYPE_LZMA: int := 4
  const BYTES_PER_INT: int := 4

  /** `numberOfBlobs = firstOffset / BYTES_PER_INT`: the number of table
      entries, which is one more than the number of blobs. */
  function NumberOfBlobs(firstOffset: int): int
  {
    JavaDiv(firstOffset, BYTES_PER_INT)
  }

  /** `(blobNumber - 1) * BYTES_PER_INT`: how far to skip to reach
      offset[b], in `int` arithmetic. */
  function Location(b: int): (r: int)
    ensures IsInt32(r)
  {
    Int32((b - 1) * BYTES_PER_INT)
  }

  /** `offset1 - BYTES_PER_INT * (blobNumber + 2)`: how far to skip from
      just past offset[b + 1] to the blob, in `int` arithmetic. */
  function LeadIn(offset1: int, b: int): (r: int)
    ensures IsInt32(r)
  {
    Int32(offset1 - Int32(BYTES_PER_INT * Int32(b + 2)))
  }

  /** The bytes getData writes out: `new byte[n]` after a read of up to n
      bytes at pos; what the read does not reach stays zero. */
  function BlobRead(data: seq<byte>, pos: nat, n: nat): (r: seq<byte>)
    ensures |r| == n
  {
    Fill(Zeros(n), Available(data, pos, n))
  }

  /** Util.skipFully on the file stream, which skips past its end too. */
  function FileSkip(pos: nat, n: int): nat
  {
    pos + if n > 0 then n else 0
  }

  /** getData on a stored cluster, as written, from the position just past
      the compression byte. tooMany is the exception for a blob number
      that fails the check. */
  function StoredBlob(d: seq<byte>, p: nat, b: int, tooMany: Exception): (r: Result<seq<byte>, Exception>)
  {
    var first :- IntLe(d, p);
    if b >= NumberOfBlobs(first.value) then Failure(tooMany)
    else
      var offset1 :- StoredOffset1(d, first, b);
      StoredTail(d, offset1, b)
  }

  /** offset1: the first offset itself for blob 0, otherwise read after
      skipping to entry b. */
  function StoredOffset1(d: seq<byte>, first: Read<int>, b: int): (r: Result<Read<int>, Exception>)
  {
    if b == 0 then Success(first) else IntLe(d, FileSkip(first.next, Location(b)))
  }

  /** Once offset1 is read: offset2, then the blob after the lead-in skip. */
  function StoredTail(d: seq<byte>, offset1: Read<int>, b: int): (r: Result<seq<byte>, Exception>)
  {
    var offset2 :- IntLe(d, offset1.next);
    var diff := Int32(offset2.value - offset1.value);
    if diff < 0 then Failure(NegativeArraySizeException)
    else Success(BlobRead(d, FileSkip(offset2.next, LeadIn(offset1.value, b)), diff))
  }

  /** The blob-number check as evidently intended: a number outside
      [0, numberOfBlobs - 1) names no blob. */
  function CheckedStoredBlob(d: seq<byte>, p: nat, b: int, tooMany: Exception): (r: Result<seq<byte>, Exception>)
  {
    var first :- IntLe(d, p);
    if b < 0 || b >= NumberOfBlobs(first.value) - 1 then Failure(tooMany)
    else StoredBlob(d, p, b, tooMany)
  }

  /** The decompressed stream and the reused 4-byte buffer getData reads
      offsets into. */
  datatype XzState = XzState(buffer: seq<byte>, pos: nat)

  /** `xzReader.read(buffer)`: up to four bytes copied over the buffer;
      the bytes a short read leaves are those of the previous read. */
  function ReadBuffer(t: seq<byte>, s: XzState): (r: XzState)
    requires |s.buffer| == BYTES_PER_INT
    ensures |r.buffer| == BYTES_PER_INT
  {
    var got := Available(t, s.pos, BYTES_PER_INT);
    XzState(Fill(s.buffer, got), s.pos + |got|)
  }

  /** Util.skipFully on the decompressed stream, whose skip stops at its
      end: skipping past the end makes no progress, which is reported as
      StreamExhausted rather than looping. */
  function XzSkip(t: seq<byte>, pos: nat, n: int): (r: Result<nat, Exception>)
    ensures r.Failure? ==> r.error == StreamExhausted
  {
    if n <= 0 then Success(pos)
    else if pos + n <= |t| then Success(pos + n)
    else Failure(StreamExhausted)
  }

  /** The stream state once offset1 is in the buffer: nothing more to read
      for blob 0, a skip and a read otherwise. */
  function XzOffset1(t: seq<byte>, s: XzState, b: int): (r: Result<XzState, Exception>)
    requires |s.buffer| == BYTES_PER_INT
    ensures r.Success? ==> |r.value.buffer| == BYTES_PER_INT
  {
    if b == 0 then Success(s)
    else
      var q :- XzSkip(t, s.pos, Location(b));
      Success(ReadBuffer(t, XzState(s.buffer, q)))
  }

  /** getData on an LZMA cluster, as written, over the decompressed bytes t
      from position p. */
  function XzBlob(t: seq<byte>, p: nat, b: int, tooMany: Exception): (r: Result<seq<byte>, Exception>)
  {
    var s1 := ReadBuffer(t, XzState(Zeros(BYTES_PER_INT), p));
    var first := GetIntLe(s1.buffer);
    if b >= NumberOfBlobs(first) then Failure(tooMany)
    else
      var s2 :- XzOffset1(t, s1, b);
      XzTail(t, s2, b)
  }

  /** Once offset1 is in the buffer: offset2, then the blob after the
      lead-in skip. */
  function XzTail(t: seq<byte>, s2: XzState, b: int): (r: Result<seq<byte>, Exception>)
    requires |s2.buffer| == BYTES_PER_INT
  {
    var offset1 := GetIntLe(s2.buffer);
    var s3 := ReadBuffer(t, s2);
    var offset2 := GetIntLe(s3.buffer);
    var diff := Int32(offset2 - offset1);
    if diff < 0 then Failure(NegativeArraySizeException)
    else
      var at :- XzSkip(t, s3.pos, LeadIn(offset1, b));
      Success(BlobRead(t, at, diff))
  }

  /** The LZMA path with the blob-number check corrected. */
  function CheckedXzBlob(t: seq<byte>, p: nat, b: int, tooMany: Exception): (r: Result<seq<byte>, Exception>)
  {
    var first := GetIntLe(ReadBuffer(t, XzState(Zeros(BYTES_PER_INT), p)).buffer);
    if b < 0 || b >= NumberOfBlobs(first) - 1 then Failure(tooMany)
    else XzBlob(t, p, b, tooMany)
  }

  // ---------------------------------------------------------------------
  // What a well-formed cluster holds

  /** Entry i of the offset table at p. */
  function Offset(t: seq<byte>, p: nat, i: nat): int
    requires p + 4 * i + 4 <= |t|
  {
    Int32At(t, p + 4 * i)
  }

  /** An offset table of count entries at p: the first entry is the table
      size, the entries never decrease, and the last one lies within the
      data. */
  predicate OffsetTable(t: seq<byte>, p: nat, count: nat)
  {
    && count >= 1
    && p + 4 * count <= |t|
    && Offset(t, p, 0) == 4 * count
    && (forall i, j :: 0 <= i <= j < count ==> Offset(t, p, i) <= Offset(t, p, j))
    && p + Offset(t, p, count - 1) <= |t|
  }

  /** Every offset lies between the table's end and the data's end. */
  lemma OffsetBounds(t: seq<byte>, p: nat, count: nat, i: nat)
    requires OffsetTable(t, p, count) && i < count
    ensures 4 * count <= Offset(t, p, i) && p + Offset(t, p, i) <= |t|
  {
  }

  /** Blob b of a well-formed table: [offset[b], offset[b + 1]) measured
      from the start of the table. */
  function Blob(t: seq<byte>, p: nat, count: nat, b: nat): (r: seq<byte>)
    requires OffsetTable(t, p, count) && b + 1 < count
    ensures |r| == Offset(t, p, b + 1) - Offset(t, p, b)
  {
    OffsetBounds(t, p, count, b);
    OffsetBounds(t, p, count, b + 1);
    t[p + Offset(t, p, b)..p + Offset(t, p, b + 1)]
  }

  /** Where a blob is found, a read of its length gives it whole: the
      bytes from o1 to o2 past p. */
  lemma BlobReadWhole(t: seq<byte>, p: nat, o1: int, o2: int)
    requires 0 <= o1 <= o2 && p + o2 <= |t|
    ensures BlobRead(t, p + o1, o2 - o1) == t[p + o1..p + o2]
  {
    if o1 < o2 {
      assert Available(t, p + o1, o2 - o1) == t[p + o1..p + o2];
    } else {
      assert Available(t, p + o1, o2 - o1) == [];
    }
  }

  /** Once the buffer has been filled from four bytes within the stream,
      it holds those four bytes and getIntLe reads the `int` there. */
  lemma ReadBufferWhole(t: seq<byte>, s: XzState)
    requires |s.buffer| == BYTES_PER_INT && s.pos + 4 <= |t|
    ensures ReadBuffer(t, s) == XzState(t[s.pos..s.pos + 4], s.pos + 4)
    ensures GetIntLe(ReadBuffer(t, s).buffer) == Int32At(t, s.pos)
  {
    assert Fill(s.buffer, t[s.pos..s.pos + 4]) == t[s.pos..s.pos + 4];
    Int32AtSlice(t, s.pos);
  }

  /** What the first read of a well-formed table meets: the first offset,
      which makes the table's count the number getData computes. */
  lemma TableHead(t: seq<byte>, p: nat, count: nat)
    requires OffsetTable(t, p, count)
    ensures IntLe(t, p) == Success(Read(Offset(t, p, 0), p + 4))
    ensures ReadBuffer(t, XzState(Zeros(BYTES_PER_INT), p)) == XzState(t[p..p + 4], p + 4)
    ensures GetIntLe(ReadBuffer(t, XzState(Zeros(BYTES_PER_INT), p)).buffer) == Offset(t, p, 0)
    ensures NumberOfBlobs(Offset(t, p, 0)) == count
  {
    ReadBufferWhole(t, XzState(Zeros(BYTES_PER_INT), p));
  }

  // The lemmas below take the offsets they speak of as values o1 and o2,
  // so that the lemmas chaining them line up term by term.

  /** From just past the first entry, the skip to entry b lands on it. */
  lemma EntrySkip(t: seq<byte>, p: nat, count: nat, b: nat)
    requires 0 < b && b + 1 < count && 4 * count < TWO_31 && p + 4 * count <= |t|
    ensures FileSkip(p + 4, Location(b)) == p + 4 * b
    ensures XzSkip(t, p + 4, Location(b)) == Success(p + 4 * b)
  {
  }

  /** Reading entry b, into a fresh int or over the LZMA buffer, gives
      o1 = offset[b]. */
  lemma EntryRead(t: seq<byte>, p: nat, count: nat, b: nat, o1: int)
    requires OffsetTable(t, p, count) && b + 1 < count && o1 == Offset(t, p, b)
    ensures IntLe(t, p + 4 * b) == Success(Read(o1, p + 4 * b + 4))
    ensures ReadBuffer(t, XzState(t[p..p + 4], p + 4 * b)) == XzState(t[p + 4 * b..p + 4 * b + 4], p + 4 * b + 4)
  {
    ReadBufferWhole(t, XzState(t[p..p + 4], p + 4 * b));
  }

  /** Blob b, with o1 and o2 its offsets, lies past the table and within
      the data, and a read of its length at its start gives it whole. */
  lemma BlobExtent(t: seq<byte>, p: nat, count: nat, b: nat, o1: int, o2: int)
    requires OffsetTable(t, p, count) && b + 1 < count
    requires o1 == Offset(t, p, b) && o2 == Offset(t, p, b + 1)
    ensures 4 * count <= o1 <= o2 < TWO_31 && p + o2 <= |t|
    ensures BlobRead(t, p + o1, o2 - o1) == Blob(t, p, count, b)
  {
    OffsetBounds(t, p, count, b);
    OffsetBounds(t, p, count, b + 1);
    BlobReadWhole(t, p, o1, o2);
    assert Blob(t, p, count, b) == t[p + o1..p + o2];
  }

  /** Reading entry b + 1 gives o2 = offset[b + 1]. */
  lemma TailRead(t: seq<byte>, p: nat, count: nat, b: nat, o2: int)
    requires OffsetTable(t, p, count) && b + 1 < count && o2 == Offset(t, p, b + 1)
    ensures IntLe(t, p + 4 * b + 4) == Success(Read(o2, p + 4 * b + 4 + 4))
  {
  }

  /** The LZMA buffer read at entry b holds o1 = offset[b], and the one
      read at entry b + 1 holds o2 = offset[b + 1]. */
  lemma TailBuffer(t: seq<byte>, p: nat, count: nat, b: nat, o1: int, o2: int)
    requires OffsetTable(t, p, count) && b + 1 < count
    requires o1 == Offset(t, p, b) && o2 == Offset(t, p, b + 1)
    ensures GetIntLe(t[p + 4 * b..p + 4 * b + 4]) == o1
    ensures GetIntLe(t[p + 4 * b + 4..p + 4 * b + 4 + 4]) == o2
  {
    Int32AtSlice(t, p + 4 * b);
    Int32AtSlice(t, p + 4 * b + 4);
  }

  /** Stored path: offset1 of a blob the table holds is offset[b], read
      from p + 4b. */
  lemma StoredOffset1Exact(d: seq<byte>, p: nat, count: nat, b: nat)
    requires OffsetTable(d, p, count) && b + 1 < count
    ensures StoredOffset1(d, Read(Offset(d, p, 0), p + 4), b) == Success(Read(Offset(d, p, b), p + 4 * b + 4))
  {
    if b != 0 {
      var o1 := Offset(d, p, b);
      EntrySkip(d, p, count, b);
      EntryRead(d, p, count, b, o1);
      var first := Read(Offset(d, p, 0), p + 4);
      assert StoredOffset1(d, first, b) == IntLe(d, FileSkip(p + 4, Location(b)));
    }
  }

  /** Stored path: from offset1 = o1 on, getData reads o2 at entry b + 1,
      skips to the blob and reads o2 - o1 bytes there. */
  lemma StoredTailReads(d: seq<byte>, p: nat, b: nat, o1: int, o2: int)
    requires IntLe(d, p + 4 * b + 4) == Success(Read(o2, p + 4 * b + 4 + 4))
    requires 4 * (b + 2) <= o1 <= o2 < TWO_31
    ensures StoredTail(d, Read(o1, p + 4 * b + 4), b) == Success(BlobRead(d, p + o1, o2 - o1))
  {
  }

  /** Stored path: from offset1 on, getData reads exactly the blob. */
  lemma StoredTailExact(d: seq<byte>, p: nat, count: nat, b: nat)
    requires OffsetTable(d, p, count) && b + 1 < count
    ensures StoredTail(d, Read(Offset(d, p, b), p + 4 * b + 4), b) == Success(Blob(d, p, count, b))
  {
    var o1 := Offset(d, p, b);
    var o2 := Offset(d, p, b + 1);
    BlobExtent(d, p, count, b, o1, o2);
    TailRead(d, p, count, b, o2);
    StoredTailReads(d, p, b, o1, o2);
  }

  /** Stored path: for a blob the table holds, getData gives exactly
      [offset[b], offset[b + 1]) of the table. */
  lemma StoredBlobExact(d: seq<byte>, p: nat, count: nat, b: nat, tooMany: Exception)
    requires OffsetTable(d, p, count) && b + 1 < count
    ensures StoredBlob(d, p, b, tooMany) == Success(Blob(d, p, count, b))
  {
    TableHead(d, p, count);
    StoredOffset1Exact(d, p, count, b);
    StoredTailExact(d, p, count, b);
  }

  /** Stored path as written, on a well-formed table: every blob the table
      holds is read exactly, and a number at or past the table's entry
      count fails with tooMany. The two other cases, the number of the
      last entry and negative numbers, pass the check and read on (see
      StoredBlobAcceptsPastLast and StoredBlobAcceptsNegative). */
  lemma StoredBlobSpec(d: seq<byte>, p: nat, count: nat, b: int, tooMany: Exception)
    requires OffsetTable(d, p, count)
    ensures 0 <= b < count - 1 ==> StoredBlob(d, p, b, tooMany) == Success(Blob(d, p, count, b))
    ensures b >= count ==> StoredBlob(d, p, b, tooMany) == Failure(tooMany)
  {
    TableHead(d, p, count);
    if 0 <= b < count - 1 {
      StoredBlobExact(d, p, count, b, tooMany);
    }
  }

  /** Stored path, corrected check: on a well-formed table it succeeds
      exactly for the blobs the table holds, gives each of them exactly,
      and rejects every other number with tooMany. */
  lemma CheckedStoredBlobSpec(d: seq<byte>, p: nat, count: nat, b: int, tooMany: Exception)
    requires OffsetTable(d, p, count)
    ensures CheckedStoredBlob(d, p, b, tooMany).Success? <==> 0 <= b < count - 1
    ensures 0 <= b < count - 1 ==> CheckedStoredBlob(d, p, b, tooMany) == Success(Blob(d, p, count, b))
    ensures !(0 <= b < count - 1) ==> CheckedStoredBlob(d, p, b, tooMany) == Failure(tooMany)
  {
    TableHead(d, p, count);
    if 0 <= b < count - 1 {
      StoredBlobExact(d, p, count, b, tooMany);
    }
  }

  /** A table of two entries, 8 and 12, holding one blob of four bytes. */
  const ONE_BLOB: seq<byte> := [8, 0, 0, 0, 12, 0, 0, 0, 12, 0, 0, 0]

  /** ONE_BLOB is a well-formed table of two entries. */
  lemma OneBlobTable()
    ensures OffsetTable(ONE_BLOB, 0, 2)
    ensures Offset(ONE_BLOB, 0, 0) == 8 && Offset(ONE_BLOB, 0, 1) == 12
  {
    assert Offset(ONE_BLOB, 0, 0) == 8;
    assert Offset(ONE_BLOB, 0, 1) == 12;
    forall i, j | 0 <= i <= j < 2
      ensures Offset(ONE_BLOB, 0, i) <= Offset(ONE_BLOB, 0, j)
    {
      assert i == 0 || i == j;
    }
  }

  /** As written, the check accepts blob number 1 of a cluster holding a
      single blob: it reads offset[1] and the blob's own first bytes as the
      two offsets and returns an empty blob instead of failing. */
  lemma StoredBlobAcceptsPastLast(tooMany: Exception)
    ensures OffsetTable(ONE_BLOB, 0, 2)
    ensures StoredBlob(ONE_BLOB, 0, 1, tooMany) == Success([])
    ensures CheckedStoredBlob(ONE_BLOB, 0, 1, tooMany) == Failure(tooMany)
  {
    OneBlobTable();
    assert Int32At(ONE_BLOB, 8) == 12;
    assert BlobRead(ONE_BLOB, 12, 0) == [];
  }

  /** As written, a negative blob number passes the check too: the skip
      of a negative count does nothing, so offset[1] and offset[2] (here
      the blob's first bytes) are read as the two offsets, and blob -1 of
      ONE_BLOB comes back empty instead of failing. */
  lemma StoredBlobAcceptsNegative(tooMany: Exception)
    ensures OffsetTable(ONE_BLOB, 0, 2)
    ensures StoredBlob(ONE_BLOB, 0, -1, tooMany) == Success([])
    ensures CheckedStoredBlob(ONE_BLOB, 0, -1, tooMany) == Failure(tooMany)
  {
    OneBlobTable();
    assert Int32At(ONE_BLOB, 4) == 12;
    assert Int32At(ONE_BLOB, 8) == 12;
    assert BlobRead(ONE_BLOB, 20, 0) == [];
  }

  /** LZMA path: once the first offset is in the buffer, offset1 of a
      blob the table holds is offset[b], read from p + 4b. */
  lemma XzOffset1Exact(t: seq<byte>, p: nat, count: nat, b: nat)
    requires OffsetTable(t, p, count) && b + 1 < count
    ensures XzOffset1(t, XzState(t[p..p + 4], p + 4), b) == Success(XzState(t[p + 4 * b..p + 4 * b + 4], p + 4 * b + 4))
  {
    if b != 0 {
      var o1 := Offset(t, p, b);
      EntrySkip(t, p, count, b);
      EntryRead(t, p, count, b, o1);
    }
  }

  /** From just past offset[b + 1], the lead-in skip lands on the blob. */
  lemma LeadInSkip(t: seq<byte>, p: nat, b: nat, o1: int)
    requires 4 * (b + 2) <= o1 < TWO_31 && p + o1 <= |t|
    ensures XzSkip(t, p + 4 * b + 4 + 4, LeadIn(o1, b)) == Success(p + o1)
  {
  }

  /** LZMA path: once o1 is in the buffer, getData reads o2 over it, skips
      to the blob and reads o2 - o1 bytes there. */
  lemma XzTailReads(t: seq<byte>, p: nat, b: nat, o1: int, o2: int)
    requires p + 4 * b + 4 + 4 <= |t|
    requires GetIntLe(t[p + 4 * b..p + 4 * b + 4]) == o1
    requires GetIntLe(t[p + 4 * b + 4..p + 4 * b + 4 + 4]) == o2
    requires 4 * (b + 2) <= o1 <= o2 < TWO_31 && p + o2 <= |t|
    ensures XzTail(t, XzState(t[p + 4 * b..p + 4 * b + 4], p + 4 * b + 4), b) == Success(BlobRead(t, p + o1, o2 - o1))
  {
    ReadBufferWhole(t, XzState(t[p + 4 * b..p + 4 * b + 4], p + 4 * b + 4));
    LeadInSkip(t, p, b, o1);
  }

  /** LZMA path: once offset1 is in the buffer, getData reads exactly the
      blob. */
  lemma XzTailExact(t: seq<byte>, p: nat, count: nat, b: nat)
    requires OffsetTable(t, p, count) && b + 1 < count
    ensures XzTail(t, XzState(t[p + 4 * b..p + 4 * b + 4], p + 4 * b + 4), b) == Success(Blob(t, p, count, b))
  {
    var o1 := Offset(t, p, b);
    var o2 := Offset(t, p, b + 1);
    BlobExtent(t, p, count, b, o1, o2);
    TailBuffer(t, p, count, b, o1, o2);
    XzTailReads(t, p, b, o1, o2);
  }

  /** LZMA path: for a blob the table holds, getData gives exactly
      [offset[b], offset[b + 1]) of the decompressed table. */
  lemma XzBlobExact(t: seq<byte>, p: nat, count: nat, b: nat, tooMany: Exception)
    requires OffsetTable(t, p, count) && b + 1 < count
    ensures XzBlob(t, p, b, tooMany) == Success(Blob(t, p, count, b))
  {
    TableHead(t, p, count);
    XzOffset1Exact(t, p, count, b);
    XzTailExact(t, p, count, b);
  }

  /** LZMA path as written, on a well-formed decompressed table: every
      blob the table holds is read exactly, and a number at or past the
      table's entry count fails with tooMany (see XzBlobAcceptsPastLast and
      XzBlobAcceptsNegative for the numbers in between). */
  lemma XzBlobSpec(t: seq<byte>, p: nat, count: nat, b: int, tooMany: Exception)
    requires OffsetTable(t, p, count)
    ensures 0 <= b < count - 1 ==> XzBlob(t, p, b, tooMany) == Success(Blob(t, p, count, b))
    ensures b >= count ==> XzBlob(t, p, b, tooMany) == Failure(tooMany)
  {
    TableHead(t, p, count);
    if 0 <= b < count - 1 {
      XzBlobExact(t, p, count, b, tooMany);
    }
  }

  /** LZMA path, corrected check: on a well-formed table it succeeds
      exactly for the blobs the table holds, gives each of them exactly,
      and rejects every other number with tooMany. */
  lemma CheckedXzBlobSpec(t: seq<byte>, p: nat, count: nat, b: int, tooMany: Exception)
    requires OffsetTable(t, p, count)
    ensures CheckedXzBlob(t, p, b, tooMany).Success? <==> 0 <= b < count - 1
    ensures 0 <= b < count - 1 ==> CheckedXzBlob(t, p, b, tooMany) == Success(Blob(t, p, count, b))
    ensures !(0 <= b < count - 1) ==> CheckedXzBlob(t, p, b, tooMany) == Failure(tooMany)
  {
    TableHead(t, p, count);
    if 0 <= b < count - 1 {
      XzBlobExact(t, p, count, b, tooMany);
    }
  }

  /** As written, the LZMA path too accepts blob number 1 of a single-blob
      cluster and returns an empty blob. */
  lemma XzBlobAcceptsPastLast(tooMany: Exception)
    ensures OffsetTable(ONE_BLOB, 0, 2)
    ensures XzBlob(ONE_BLOB, 0, 1, tooMany) == Success([])
    ensures CheckedXzBlob(ONE_BLOB, 0, 1, tooMany) == Failure(tooMany)
  {
    OneBlobTable();
    ReadBufferWhole(ONE_BLOB, XzState(Zeros(BYTES_PER_INT), 0));
    ReadBufferWhole(ONE_BLOB, XzState(ONE_BLOB[0..4], 4));
    ReadBufferWhole(ONE_BLOB, XzState(ONE_BLOB[4..8], 8));
    assert Int32At(ONE_BLOB, 8) == 12;
    assert BlobRead(ONE_BLOB, 12, 0) == [];
  }

  /** As written, the LZMA path also lets blob -1 of ONE_BLOB through the
      check; its lead-in skip then runs past the end of the decompressed
      bytes, where Util.skipFully makes no progress. */
  lemma XzBlobAcceptsNegative(tooMany: Exception)
    ensures OffsetTable(ONE_BLOB, 0, 2)
    ensures XzBlob(ONE_BLOB, 0, -1, tooMany) == Failure(StreamExhausted)
    ensures CheckedXzBlob(ONE_BLOB, 0, -1, tooMany) == Failure(tooMany)
  {
    OneBlobTable();
    ReadBufferWhole(ONE_BLOB, XzState(Zeros(BYTES_PER_INT), 0));
    ReadBufferWhole(ONE_BLOB, XzState(ONE_BLOB[0..4], 4));
    ReadBufferWhole(ONE_BLOB, XzState(ONE_BLOB[4..8], 8));
    assert Int32At(ONE_BLOB, 4) == 12;
    assert Int32At(ONE_BLOB, 8) == 12;
  }

  // ---------------------------------------------------------------------
  // The reads as getData performs them

  /** The stored-cluster case of getData, from just past the compression
      byte. */
  method ReadStoredBlob(stream: ByteStream, b: int, tooMany: Exception) returns (r: Result<seq<byte>, Exception>)
    requires stream.skipPastEnd
    modifies stream
    ensures r == StoredBlob(stream.data, old(stream.pos), b, tooMany)
  {
    ghost var p := stream.pos;
    var first :- stream.ReadIntLe();
    var numberOfBlobs := NumberOfBlobs(first);
    if b >= numberOfBlobs {
      return Failure(tooMany);
    }
    var offset1 :- ReadStoredOffset1(stream, first, b);
    r := ReadStoredTail(stream, offset1, b);
    assert StoredBlob(stream.data, p, b, tooMany)
        == StoredTail(stream.data, StoredOffset1(stream.data, Read(first, p + 4), b).value, b);
  }

  /** offset1: the first offset for blob 0, otherwise a skip to entry b
      and a read. */
  method ReadStoredOffset1(stream: ByteStream, first: int, b: int) returns (r: Result<int, Exception>)
    requires stream.skipPastEnd
    modifies stream
    ensures var s := StoredOffset1(stream.data, Read(first, old(stream.pos)), b);
      && (s.Success? ==> r == Success(s.value.value) && stream.pos == s.value.next)
      && (s.Failure? ==> r == Failure(s.error))
  {
    if b == 0 {
      return Success(first);
    }
    var skipped := SkipFully(stream, Location(b));
    assert skipped.Pass?;  // the file stream skips past its end
    r := stream.ReadIntLe();
  }

  /** The stored case from offset1 on: offset2, the array of their
      difference, the lead-in skip and the read. */
  method ReadStoredTail(stream: ByteStream, offset1: int, b: int) returns (r: Result<seq<byte>, Exception>)
    requires stream.skipPastEnd
    modifies stream
    ensures r == StoredTail(stream.data, Read(offset1, old(stream.pos)), b)
  {
    ghost var read2 := IntLe(stream.data, stream.pos);
    var offset2 :- stream.ReadIntLe();
    assert read2 == Success(Read(offset2, stream.pos));
    var differenceOffset := Int32(offset2 - offset1);
    if differenceOffset < 0 {
      return Failure(NegativeArraySizeException);
    }
    var buffer := new byte[differenceOffset](_ => 0);
    assert buffer[..] == Zeros(differenceOffset);
    var leadIn := LeadIn(offset1, b);
    var skipped := SkipFully(stream, leadIn);
    assert skipped.Pass?;
    assert stream.pos == FileSkip(read2.value.next, leadIn);
    var _ := stream.ReadInto(buffer, differenceOffset);
    r := Success(buffer[..]);
  }

  /** The LZMA case of getData over the decompressed stream. */
  method ReadXzBlob(xz: ByteStream, b: int, tooMany: Exception) returns (r: Result<seq<byte>, Exception>)
    requires !xz.skipPastEnd
    modifies xz
    ensures r == XzBlob(xz.data, old(xz.pos), b, tooMany)
  {
    ghost var p := xz.pos;
    var buffer := new byte[BYTES_PER_INT](_ => 0);
    assert buffer[..] == Zeros(BYTES_PER_INT);
    var _ := xz.ReadInto(buffer, BYTES_PER_INT);
    ghost var s1 := ReadBuffer(xz.data, XzState(Zeros(BYTES_PER_INT), p));
    assert buffer[..] == s1.buffer && xz.pos == s1.pos;
    var first := GetIntLe(buffer[..]);
    var numberOfBlobs := NumberOfBlobs(first);
    if b >= numberOfBlobs {
      return Failure(tooMany);
    }
    var found := ReadXzOffset1(xz, buffer, b);
    if found.Fail? {
      return Failure(found.error);
    }
    ghost var s2 := XzOffset1(xz.data, s1, b).value;
    r := ReadXzTail(xz, buffer, b);
    assert r == XzTail(xz.data, s2, b);
  }

  /** The LZMA case up to offset1: nothing to do for blob 0, otherwise a
      skip to entry b and a read into the buffer. */
  method ReadXzOffset1(xz: ByteStream, buffer: array<byte>, b: int) returns (o: Outcome<Exception>)
    requires !xz.skipPastEnd && buffer.Length == BYTES_PER_INT
    modifies xz, buffer
    ensures var s := XzOffset1(xz.data, XzState(old(buffer[..]), old(xz.pos)), b);
      && (s.Success? ==> o == Pass && buffer[..] == s.value.buffer && xz.pos == s.value.pos)
      && (s.Failure? ==> o == Fail(s.error))
  {
    if b == 0 {
      return Pass;
    }
    ghost var p := xz.pos;
    var skipped := SkipFully(xz, Location(b));
    if skipped.Fail? {
      assert XzSkip(xz.data, p, Location(b)).Failure?;
      return skipped;
    }
    assert XzSkip(xz.data, p, Location(b)) == Success(xz.pos);
    var _ := xz.ReadInto(buffer, BYTES_PER_INT);
    o := Pass;
  }

  /** The LZMA case once offset1 is in the buffer: offset2 read over it,
      the array of their difference, the lead-in skip and the read. */
  method ReadXzTail(xz: ByteStream, buffer: array<byte>, b: int) returns (r: Result<seq<byte>, Exception>)
    requires !xz.skipPastEnd && buffer.Length == BYTES_PER_INT
    modifies xz, buffer
    ensures r == XzTail(xz.data, XzState(old(buffer[..]), old(xz.pos)), b)
  {
    ghost var s2 := XzState(buffer[..], xz.pos);
    var offset1 := GetIntLe(buffer[..]);
    var _ := xz.ReadInto(buffer, BYTES_PER_INT);
    ghost var s3 := ReadBuffer(xz.data, s2);
    assert buffer[..] == s3.buffer && xz.pos == s3.pos;
    var offset2 := GetIntLe(buffer[..]);
    var differenceOffset := Int32(offset2 - offset1);
    if differenceOffset < 0 {
      return Failure(NegativeArraySizeException);
    }
    r := ReadXzBytes(xz, LeadIn(offset1, b), differenceOffset);
  }

  /** The end of the LZMA case: the lead-in skip over the decompressed
      stream, then the read into a fresh array of n bytes. */
  method ReadXzBytes(xz: ByteStream, leadIn: int, n: nat) returns (r: Result<seq<byte>, Exception>)
    requires !xz.skipPastEnd
    modifies xz
    ensures r == (var at :- XzSkip(xz.data, old(xz.pos), leadIn); Success(BlobRead(xz.data, at, n)))
  {
    var blob := new byte[n](_ => 0);
    assert blob[..] == Zeros(n);
    var skipped := SkipFully(xz, leadIn);
    if skipped.Fail? {
      return Failure(skipped.error);
    }
    var _ := xz.ReadInto(blob, n);
    r := Success(blob[..]);
  }
}
