/** The directory as it lies in the file: the URL pointer table holds, for
    every URL position, the file offset of a directory entry as a `long`;
    the Title pointer table holds, for every title position, a URL position
    as an `int`. A directory entry is a 2-byte type code, a parameter length
    byte (ignored), a namespace byte, a 4-byte revision, then either the
    4-byte redirect target or the 4-byte cluster and blob numbers, then the
    NUL-terminated URL and title. */
module DirectoryFormat {
  import opened Wrappers
  import opened Exceptions
  import opened Bytes
  import opened Streams
  import opened ZimFile
  import opened DirectoryEntries

  const BYTES_PER_INT: int := 4
  const BYTES_PER_LONG: int := 8

  /** `(char) read()`: a byte as a character; the -1 of the end of the
      stream becomes the character U+FFFF. */
  function CharOfRead(b: int): (c: char)
    requires -1 <= b < 256
    ensures b >= 0 ==> c as int == b
    ensures b < 0 ==> c as int == 0xFFFF
  {
    if b < 0 then 0xFFFF as char else b as char
  }

  /** `title.length() == 0 ? url : title`. */
  function TitleOrUrl(title: string, url: string): (r: string)
    ensures title != [] ==> r == title
    ensures title == [] ==> r == url
  {
    if |title| == 0 then url else title
  }

  /** The directory entry at file offset p, as getDirectoryEntryAtUrlPosition
      reads it once it has sought there; position is the URL position it is
      recorded under. */
  function EntryAt(data: seq<byte>, p: nat, position: int): (r: Result<EntryRecord, Exception>)
    ensures r.Success? ==> 0 <= r.value.mimeType < 0x1_0000 && r.value.urlListIndex == position
    ensures r.Success? ==> (r.value.kind.Redirect? <==> r.value.mimeType == TYPE_REDIRECT)
    ensures r.Success? && r.value.title == [] ==> r.value.url == []
    ensures r.Failure? ==> r.error == IOException(READ_FAILED)
  {
    var t :- ShortLe(data, p);
    var q := Advance(data, t.next);
    var namespace := CharOfRead(ByteAt(data, q));
    var revision :- IntLe(data, Advance(data, q));
    var kind :- KindAt(data, t.value, revision.next);
    var url :- StringAt(data, kind.next);
    var title :- StringAt(data, url.next);
    Success(EntryRecord(t.value, namespace, revision.value, url.value,
                        TitleOrUrl(title.value, url.value), position, kind.value))
  }

  /** The numbers after the revision: the redirect target for the redirect
      type code, the cluster and blob numbers for any other. */
  function KindAt(data: seq<byte>, typeCode: int, p: nat): (r: Result<Read<Kind>, Exception>)
    ensures r.Success? ==> (r.value.value.Redirect? <==> typeCode == TYPE_REDIRECT)
    ensures r.Success? ==> r.value.next == p + if typeCode == TYPE_REDIRECT then 4 else 8
    ensures r.Failure? ==> r.error == IOException(READ_FAILED)
  {
    if typeCode == TYPE_REDIRECT then
      var target :- IntLe(data, p);
      Success(Read(Redirect(target.value), target.next))
    else
      var cluster :- IntLe(data, p);
      var blob :- IntLe(data, cluster.next);
      Success(Read(Article(cluster.value, blob.value), blob.next))
  }
  /** The reads of getDirectoryEntryAtUrlPosition once it has sought to the
      entry: the fields in file order through the stream's own reads. */
  method ReadEntry(stream: ByteStream, position: int) returns (r: Result<EntryRecord, Exception>)
    modifies stream
    ensures r == EntryAt(stream.data, old(stream.pos), position)
  {
    var t :- stream.ReadShortLe();
    var _ := stream.Read();
    var b := stream.Read();
    var namespace := CharOfRead(b);
    var revision :- stream.ReadIntLe();
    var kind :- ReadKind(stream, t);
    var url :- stream.ReadString();
    var title :- stream.ReadString();
    r := Success(EntryRecord(t, namespace, revision, url, TitleOrUrl(title, url), position, kind));
  }

  /** The redirect target, or the cluster and blob numbers, as the stream
      reads them. */
  method ReadKind(stream: ByteStream, typeCode: int) returns (r: Result<Kind, Exception>)
    modifies stream
    ensures var k := KindAt(stream.data, typeCode, old(stream.pos));
      && (k.Success? ==> r == Success(k.value.value) && stream.pos == k.value.next)
      && (k.Failure? ==> r == Failure(k.error))
  {
    if typeCode == TYPE_REDIRECT {
      var target :- stream.ReadIntLe();
      r := Success(Redirect(target));
    } else {
      var cluster :- stream.ReadIntLe();
      var blob :- stream.ReadIntLe();
      r := Success(Article(cluster, blob));
    }
  }


  /** A NUL-free string of one-byte characters. */
  predicate Storable(s: string)
  {
    IsLatin1(s) && forall k :: 0 <= k < |s| ==> s[k] != 0 as char
  }

  /** An entry a file can hold and read back unchanged: every number fits
      its width, the type code says which kind it is, and the title is not
      empty (an empty one reads back as the URL) unless the URL is too. */
  predicate EntryEncodable(e: EntryRecord)
  {
    && 0 <= e.mimeType < 0x1_0000
    && (e.kind.Redirect? <==> e.mimeType == TYPE_REDIRECT)
    && e.namespace as int < 256
    && IsInt32(e.revision)
    && (match e.kind
        case Article(c, b) => IsInt32(c) && IsInt32(b)
        case Redirect(i) => IsInt32(i))
    && Storable(e.url) && Storable(e.title)
    && (e.title != [] || e.url == [])
  }

  /** The bytes between the revision and the URL. */
  function KindBytes(k: Kind): (r: seq<byte>)
    requires match k
      case Article(c, b) => IsInt32(c) && IsInt32(b)
      case Redirect(i) => IsInt32(i)
    ensures |r| == if k.Redirect? then 4 else 8
  {
    match k
    case Article(c, b) => EncodeInt32(c) + EncodeInt32(b)
    case Redirect(i) => EncodeInt32(i)
  }

  /** The fixed-size start of an entry: type code, parameter length 0,
      namespace, revision and the kind's numbers. */
  function EntryHead(e: EntryRecord): (r: seq<byte>)
    requires EntryEncodable(e)
    ensures |r| == 8 + |KindBytes(e.kind)|
  {
    EncodeInt16(e.mimeType) + [0, e.namespace as int as byte] + EncodeInt32(e.revision) + KindBytes(e.kind)
  }

  /** The bytes of a directory entry. */
  function EncodeEntry(e: EntryRecord): (r: seq<byte>)
    requires EntryEncodable(e)
  {
    EntryHead(e) + Latin1Bytes(e.url) + [0] + Latin1Bytes(e.title) + [0]
  }

  /** The fixed part of a redirect entry is RedirectEntry.ENTRY_SIZE bytes,
      that of an article four more. */
  lemma EntryHeadSize(e: EntryRecord)
    requires EntryEncodable(e)
    ensures e.kind.Redirect? ==> |EntryHead(e)| == REDIRECT_ENTRY_SIZE
    ensures e.kind.Article? ==> |EntryHead(e)| == REDIRECT_ENTRY_SIZE + 4
    ensures |EncodeEntry(e)| == |EntryHead(e)| + |e.url| + |e.title| + 2
  {
  }

  /** The three parts of an encoded entry lie one after the other. */
  lemma EntryParts(d: seq<byte>, p: nat, e: EntryRecord)
    requires EntryEncodable(e)
    requires p + |EncodeEntry(e)| <= |d| && d[p..p + |EncodeEntry(e)|] == EncodeEntry(e)
    ensures p + |EntryHead(e)| <= |d| && d[p..p + |EntryHead(e)|] == EntryHead(e)
    ensures var u := p + |EntryHead(e)|;
      u + |e.url| + 1 <= |d| && d[u..u + |e.url| + 1] == Latin1Bytes(e.url) + [0]
    ensures var v := p + |EntryHead(e)| + |e.url| + 1;
      v + |e.title| + 1 <= |d| && d[v..v + |e.title| + 1] == Latin1Bytes(e.title) + [0]
  {
    assert EncodeEntry(e) == EntryHead(e) + (Latin1Bytes(e.url) + [0]) + (Latin1Bytes(e.title) + [0]);
    SplitThree(d, p, EntryHead(e), Latin1Bytes(e.url) + [0], Latin1Bytes(e.title) + [0]);
  }

  /** A storable string followed by NUL reads back wherever it lies. */
  lemma StringAtEncoded(data: seq<byte>, p: nat, s: string)
    requires Storable(s)
    requires p + |s| + 1 <= |data| && data[p..p + |s| + 1] == Latin1Bytes(s) + [0]
    ensures StringAt(data, p) == Success(Read(s, p + |s| + 1))
  {
    assert data == data[..p] + Latin1Bytes(s) + [0] + data[p + |s| + 1..];
    StringRoundTrip(data[..p], s, data[p + |s| + 1..]);
  }

  /** The fixed-size start of an encoded entry reads back field by field. */
  lemma EntryHeadAt(d: seq<byte>, p: nat, e: EntryRecord)
    requires EntryEncodable(e)
    requires p + |EncodeEntry(e)| <= |d| && d[p..p + |EncodeEntry(e)|] == EncodeEntry(e)
    ensures ShortLe(d, p) == Success(Read(e.mimeType, p + 2))
    ensures ByteAt(d, p + 2) >= 0 && Advance(d, p + 2) == p + 3
    ensures ByteAt(d, p + 3) == e.namespace as int && Advance(d, p + 3) == p + 4
    ensures IntLe(d, p + 4) == Success(Read(e.revision, p + 8))
    ensures KindAt(d, e.mimeType, p + 8) == Success(Read(e.kind, p + |EntryHead(e)|))
  {
    EntryParts(d, p, e);
    var h := EntryHead(e);
    assert h[..2] == EncodeInt16(e.mimeType);
    SliceAt(d, p, h, 0, 2);
    UInt16AtEncoded(d, p, e.mimeType);
    assert d[p + 3] == h[3] == e.namespace as int as byte;
    assert h[4..8] == EncodeInt32(e.revision);
    SliceAt(d, p, h, 4, 8);
    Int32AtEncoded(d, p + 4, e.revision);
    assert h[8..] == KindBytes(e.kind);
    match e.kind {
      case Redirect(i) =>
        SliceAt(d, p, h, 8, 12);
        Int32AtEncoded(d, p + 8, i);
      case Article(c, b) =>
        assert h[8..12] == EncodeInt32(c) && h[12..16] == EncodeInt32(b);
        SliceAt(d, p, h, 8, 12);
        Int32AtEncoded(d, p + 8, c);
        SliceAt(d, p, h, 12, 16);
        Int32AtEncoded(d, p + 12, b);
    }
  }

  /** Reading an encoded entry gives it back, whatever precedes and
      follows it. */
  lemma EntryRoundTrip(pre: seq<byte>, e: EntryRecord, rest: seq<byte>)
    requires EntryEncodable(e)
    ensures EntryAt(pre + EncodeEntry(e) + rest, |pre|, e.urlListIndex) == Success(e)
  {
    var d := pre + EncodeEntry(e) + rest;
    assert d[|pre|..|pre| + |EncodeEntry(e)|] == EncodeEntry(e);
    EntryAtEncoded(d, |pre|, e);
  }

  /** The URL and the title of an encoded entry read back one after the
      other. */
  lemma UrlAndTitleAt(d: seq<byte>, p: nat, e: EntryRecord, u: nat, v: nat)
    requires EntryEncodable(e)
    requires p + |EncodeEntry(e)| <= |d| && d[p..p + |EncodeEntry(e)|] == EncodeEntry(e)
    requires u == p + |EntryHead(e)| && v == u + |e.url| + 1
    ensures StringAt(d, u) == Success(Read(e.url, v))
    ensures StringAt(d, v) == Success(Read(e.title, v + |e.title| + 1))
  {
    EntryParts(d, p, e);
    StringAtEncoded(d, u, e.url);
    StringAtEncoded(d, v, e.title);
  }

  /** EntryAt from the values its reads give: a type code, a namespace
      byte, a revision, the kind's numbers, the URL, then a title that is not
      empty unless the URL is. */
  lemma EntryAtFromReads(d: seq<byte>, p: nat, position: int, e: EntryRecord, u: nat, v: nat)
    requires e.namespace as int < 256 && (e.title != [] || e.url == [])
    requires ShortLe(d, p) == Success(Read(e.mimeType, p + 2))
    requires ByteAt(d, p + 2) >= 0 && ByteAt(d, p + 3) == e.namespace as int
    requires IntLe(d, p + 4) == Success(Read(e.revision, p + 8))
    requires KindAt(d, e.mimeType, p + 8) == Success(Read(e.kind, u))
    requires StringAt(d, u) == Success(Read(e.url, v))
    requires StringAt(d, v) == Success(Read(e.title, v + |e.title| + 1))
    ensures EntryAt(d, p, position) == Success(e.(urlListIndex := position))
  {
    assert Advance(d, p + 2) == p + 3 && Advance(d, p + 3) == p + 4;
    assert CharOfRead(ByteAt(d, p + 3)) == e.namespace;
    assert TitleOrUrl(e.title, e.url) == e.title;
  }

  /** An encoded entry reads back wherever it lies in the file. */
  lemma EntryAtEncoded(d: seq<byte>, p: nat, e: EntryRecord)
    requires EntryEncodable(e)
    requires p + |EncodeEntry(e)| <= |d| && d[p..p + |EncodeEntry(e)|] == EncodeEntry(e)
    ensures EntryAt(d, p, e.urlListIndex) == Success(e)
  {
    var u := p + |EntryHead(e)|;
    var v := u + |e.url| + 1;
    EntryHeadAt(d, p, e);
    UrlAndTitleAt(d, p, e, u, v);
    EntryAtFromReads(d, p, e.urlListIndex, e, u, v);
  }

  /** The entry of URL position `position` has its offset at
      `urlPtrPos + 8 * position`, the product an `int` and the sum a `long`. */
  function UrlSlot(h: Header, position: int): (r: int)
    ensures IsInt64(r)
  {
    Int64(h.urlPtrPos + Int32(BYTES_PER_LONG * position))
  }

  /** Title position `position` has its URL position at
      `titlePtrPos + 4 * position`, the product an `int` and the sum a `long`. */
  function TitleSlot(h: Header, position: int): (r: int)
    ensures IsInt64(r)
  {
    Int64(h.titlePtrPos + Int32(BYTES_PER_INT * position))
  }

  /** The URL slot is where the table says for positions whose offset fits
      an `int`; from position 2^28 on the product wraps around. */
  lemma UrlSlotArithmetic(h: Header, position: int)
    requires IsInt64(h.urlPtrPos) && 0 <= h.urlPtrPos < TWO_63 - TWO_31
    ensures 0 <= position < 0x1000_0000 ==> UrlSlot(h, position) == h.urlPtrPos + 8 * position
    ensures position == 0x1000_0000 ==> UrlSlot(h, position) == h.urlPtrPos - TWO_31
  {
  }

  /** The Title slot is where the table says for positions whose offset
      fits an `int`; from position 2^29 on the product `4 * position`
      wraps around. */
  lemma TitleSlotArithmetic(h: Header, position: int)
    requires IsInt64(h.titlePtrPos) && 0 <= h.titlePtrPos < TWO_63 - TWO_31
    ensures 0 <= position < 0x2000_0000 ==> TitleSlot(h, position) == h.titlePtrPos + 4 * position
    ensures position == 0x2000_0000 ==> TitleSlot(h, position) == h.titlePtrPos - TWO_31
  {
  }

  /** getDirectoryEntryAtUrlPosition without its cache: seek to the slot,
      read the entry's offset, seek there and read the entry. A negative
      seek position is rejected by the file channel. */
  function UrlEntry(data: seq<byte>, h: Header, position: int): (r: Result<EntryRecord, Exception>)
    ensures r.Success? ==> r.value.urlListIndex == position
  {
    var slot := UrlSlot(h, position);
    if slot < 0 then Failure(IllegalArgumentException(BAD_ARGUMENT))
    else
      var at :- LongLe(data, slot);
      if at.value < 0 then Failure(IllegalArgumentException(BAD_ARGUMENT))
      else EntryAt(data, at.value, position)
  }

  /** getDirectoryEntryAtTitlePosition without its cache: the URL position
      in the Title table, then the entry at that URL position. */
  function TitleEntry(data: seq<byte>, h: Header, position: int): (r: Result<EntryRecord, Exception>)
  {
    var slot := TitleSlot(h, position);
    if slot < 0 then Failure(IllegalArgumentException(BAD_ARGUMENT))
    else
      var u :- IntLe(data, slot);
      UrlEntry(data, h, u.value)
  }

  /** The title entry is the URL entry whose position the Title table
      holds. */
  lemma TitleEntryIsUrlEntry(data: seq<byte>, h: Header, position: int)
    requires 0 <= TitleSlot(h, position) && TitleSlot(h, position) + 4 <= |data|
    ensures TitleEntry(data, h, position) == UrlEntry(data, h, Int32At(data, TitleSlot(h, position)))
  {
  }
}
