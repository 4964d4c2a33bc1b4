/** The lookup machinery ZimReader and ZIMReader share, line for line: the
    URL and Title caches, the memoised bounds of the article namespace, the
    one cursor over the archive file, the entry lookups by position, the
    binary searches, the backward scan for metadata, redirect resolution and
    blob extraction. The readers differ only in the exception for a blob
    number out of range and in the decompressor's memory limit, which
    `legacy` selects.

    Every method is proved to compute what the matching function of
    ReaderSpec computes over the bytes of the file, whatever the caches
    hold: Valid() keeps every cached entry equal to the entry read afresh. */
module DirectoryLookup {
  import opened Wrappers
  import opened Exceptions
  import opened Bytes
  import opened Streams
  import opened ZimFile
  import opened DirectoryEntries
  import opened DirectoryFormat
  import opened Clusters
  import opened JavaStrings
  import opened ReaderSpec

  /** The record of a looked-up entry, or the lookup's exception. */
  function RecordOf(r: Result<DirectoryEntry, Exception>): Result<EntryRecord, Exception>
  {
    match r
    case Success(e) => Success(e.record)
    case Failure(x) => Failure(x)
  }

  /** An entry that may be null, as an optional record. */
  function Found(e: DirectoryEntry?): Option<EntryRecord>
  {
    if e == null then None else Some(e.record)
  }

  /** The result of a search that may return null. */
  function FoundOf(r: Result<DirectoryEntry?, Exception>): Result<Option<EntryRecord>, Exception>
  {
    match r
    case Success(e) => Success(Found(e))
    case Failure(x) => Failure(x)
  }

  /** getDirectoryEntryAtUrlPosition past its cache: seek to the slot in
      the URL pointer table, read the entry's offset, seek there and read
      the entry. */
  method ReadUrlEntry(stream: ByteStream, h: Header, position: int, ghost d: Directory)
    returns (r: Result<EntryRecord, Exception>)
    requires Reads(d, stream.data, h)
    modifies stream
    ensures r == d.url(position)
  {
    ghost var e := UrlEntry(stream.data, h, position);
    var o := stream.Seek(UrlSlot(h, position));
    if o.Fail? {
      return Failure(o.error);
    }
    var at :- stream.ReadLongLe();
    o := stream.Seek(at);
    if o.Fail? {
      return Failure(o.error);
    }
    r := ReadEntry(stream, position);
  }

  /** getDirectoryEntryAtTitlePosition past its cache, up to the URL
      position the Title pointer table holds: the title entry is the URL
      entry there, or the read fails. */
  method ReadTitleLink(stream: ByteStream, h: Header, position: int, ghost d: Directory)
    returns (r: Result<int, Exception>)
    requires Reads(d, stream.data, h)
    modifies stream
    ensures r.Success? ==> d.title(position) == d.url(r.value)
    ensures r.Failure? ==> d.title(position) == Failure(r.error)
  {
    ghost var t := TitleEntry(stream.data, h, position);
    var o := stream.Seek(TitleSlot(h, position));
    if o.Fail? {
      return Failure(o.error);
    }
    r := stream.ReadIntLe();
    if r.Success? {
      ghost var u := UrlEntry(stream.data, h, r.value);
    }
  }

  /** The entry objects a lookup may stamp with a title position: every
      one, since an entry handed out earlier can come back from the URL
      cache and be stamped then. */
  predicate Stampable(e: DirectoryEntry)
  {
    true
  }

  class DirectoryIndex {
    /** The archive file and its header. */
    const data: seq<byte>
    const header: Header
    /** Whether this is ZIMReader's variant. */
    const legacy: bool
    /** The XZ decompressor: the bytes it delivers from a compressed stream
        under a memory limit. */
    const unxz: (seq<byte>, int) -> seq<byte>
    /** The reader's ZimInputStream over the file. */
    const stream: ByteStream
    /** The archive's directory, Dir(data, header). */
    ghost const D: Directory

    /** entryByUrlCache and entryByTitleCache. */
    var urlCache: map<int, DirectoryEntry>
    var titleCache: map<int, DirectoryEntry>
    /** Every entry object the index has handed out. */
    ghost var Entries: set<DirectoryEntry>

    /** Every cached entry is the entry read afresh at its position, and a
        title-cached entry's title position leads to it. */
    ghost predicate Valid()
      reads this, Entries
    {
      && stream.data == data && stream.skipPastEnd && Reads(D, data, header)
      && (forall k :: k in urlCache ==> urlCache[k] in Entries && D.url(k) == Success(urlCache[k].record))
      && (forall k :: k in titleCache ==>
            && titleCache[k] in Entries
            && D.title(k) == Success(titleCache[k].record)
            && D.title(titleCache[k].titleListIndex) == Success(titleCache[k].record))
    }

    /** The fields a reader's constructor and initialisers set: a fresh
        stream at the start of the file and empty caches. */
    constructor (data: seq<byte>, header: Header, legacy: bool, unxz: (seq<byte>, int) -> seq<byte>)
      ensures this.data == data && this.header == header && this.legacy == legacy && this.unxz == unxz
      ensures D == Dir(data, header)
      ensures fresh(stream) && stream.pos == 0
      ensures urlCache == map[] && titleCache == map[] && Entries == {}
      ensures Valid()
    {
      this.data := data;
      this.header := header;
      this.legacy := legacy;
      this.unxz := unxz;
      D := Dir(data, header);
      DirReads(data, header);
      stream := new ByteStream(data, true);
      urlCache := map[];
      titleCache := map[];
      Entries := {};
    }

    /** getDirectoryEntryAtUrlPosition: the cached entry, or the entry read
        afresh, which is then cached. */
    method EntryAtUrlPosition(position: int) returns (r: Result<DirectoryEntry, Exception>)
      requires Valid()
      modifies this, stream
      ensures Valid()
      ensures RecordOf(r) == D.url(position)
      ensures r.Success? ==> r.value in Entries
      ensures position in old(urlCache) ==> r == Success(old(urlCache)[position]) && unchanged(this`urlCache)
      ensures position !in old(urlCache) && r.Success? ==>
        fresh(r.value) && r.value.titleListIndex == 0 && urlCache == old(urlCache)[position := r.value]
      ensures r.Failure? ==> unchanged(this`urlCache)
      ensures unchanged(this`titleCache)
    {
      if position in urlCache {
        return Success(urlCache[position]);
      }
      var record :- ReadUrlEntry(stream, header, position, D);
      var entry := new DirectoryEntry(record);
      urlCache := urlCache[position := entry];
      Entries := Entries + {entry};
      r := Success(entry);
    }

    /** getDirectoryEntryAtTitlePosition: the cached entry, or the entry at
        the URL position the Title pointer table gives, stamped with its
        title position and cached. */
    method EntryAtTitlePosition(position: int) returns (r: Result<DirectoryEntry, Exception>)
      requires Valid()
      modifies this, stream, iset e: DirectoryEntry | Stampable(e)
      ensures Valid()
      ensures RecordOf(r) == D.title(position)
      ensures r.Success? ==> D.title(r.value.titleListIndex) == Success(r.value.record)
      ensures position in old(titleCache) ==> r == Success(old(titleCache)[position]) && unchanged(this`titleCache)
      ensures position !in old(titleCache) && r.Success? ==>
        r.value.titleListIndex == position && titleCache == old(titleCache)[position := r.value]
      ensures r.Failure? ==> unchanged(this`titleCache)
    {
      if position in titleCache {
        return Success(titleCache[position]);
      }
      var urlPosition :- ReadTitleLink(stream, header, position, D);
      var entry :- EntryAtUrlPosition(urlPosition);
      CacheTitle(position, entry);
      r := Success(entry);
    }

    /** The end of getDirectoryEntryAtTitlePosition: stamps the entry with
        its title position and caches it under that position. */
    method CacheTitle(position: int, entry: DirectoryEntry)
      requires Valid() && entry in Entries && D.title(position) == Success(entry.record)
      modifies this`titleCache, entry
      ensures Valid()
      ensures entry.titleListIndex == position && titleCache == old(titleCache)[position := entry]
    {
      entry.SetTitleListIndex(position);
      titleCache := titleCache[position := entry];
    }

    /** resolveRedirect: follows at most MAX_REDIRECTS redirects through
        the URL table; an entry still a redirect after them is an
        IOException. */
    method ResolveRedirect(entry: DirectoryEntry) returns (r: Result<DirectoryEntry, Exception>)
      requires Valid()
      modifies this, stream
      ensures Valid()
      ensures RecordOf(r) == Resolve(D, entry.record, MAX_REDIRECTS)
      ensures unchanged(this`titleCache)
    {
      var e := entry;
      var i := 0;
      while i < MAX_REDIRECTS
        invariant 0 <= i <= MAX_REDIRECTS
        invariant Valid()
        invariant unchanged(this`titleCache)
        invariant Resolve(D, entry.record, MAX_REDIRECTS) == Resolve(D, e.record, MAX_REDIRECTS - i)
      {
        if !e.record.kind.Redirect? {
          break;
        }
        e :- EntryAtUrlPosition(e.record.kind.redirectIndex);
        i := i + 1;
      }
      if e.record.kind.Redirect? {
        return Failure(IOException(TOO_MANY_REDIRECTS));
      }
      r := Success(e);
    }

    /** binarySearchByUrl: the entry whose URL equals url, or, when none
        does, the last entry probed if closest is asked for and null
        otherwise. */
    method BinarySearchByUrl(url: string, closest: bool) returns (r: Result<DirectoryEntry?, Exception>)
      requires Valid()
      modifies this, stream, iset e: DirectoryEntry | Stampable(e)
      ensures Valid()
      ensures FoundOf(r) == SearchAll(D, UrlTable, url, closest)
      ensures unchanged(this`titleCache)
    {
      var entry: DirectoryEntry? := null;
      var begin := 0;
      var end := begin + header.articleCount;
      SearchAllStarts(D, UrlTable, url, closest, end);
      while begin <= end
        invariant Valid()
        invariant SearchAll(D, UrlTable, url, closest) == Search(D, UrlTable, url, closest, begin, end, Found(entry))
        invariant unchanged(this`titleCache)
        decreases end - begin + 1
      {
        var mid := begin + (end - begin) / 2;
        ghost var last := Found(entry);
        var probe := EntryAtUrlPosition(mid);
        if probe.Failure? {
          SearchProbeFails(D, UrlTable, url, closest, begin, end, last, mid);
          return Failure(probe.error);
        }
        entry := probe.value;
        SearchStep(D, UrlTable, url, closest, begin, end, last, mid, entry.record);
        if CompareTo(url, entry.record.url) < 0 {
          end := mid - 1;
        } else if CompareTo(url, entry.record.url) > 0 {
          begin := mid + 1;
        } else {
          return Success(entry);
        }
      }
      SearchEnds(D, UrlTable, url, closest, begin, end, Found(entry));
      r := Success(if closest then entry else null);
    }

    /** binarySearchByTitle: the same search over the Title table. The entry
        it answers is cached under a title position that leads to it. */
    method BinarySearchByTitle(title: string, closest: bool) returns (r: Result<DirectoryEntry?, Exception>)
      requires Valid()
      modifies this, stream, iset e: DirectoryEntry | Stampable(e)
      ensures Valid()
      ensures FoundOf(r) == SearchAll(D, TitleTable, title, closest)
      ensures r.Success? && r.value != null ==> D.title(r.value.titleListIndex) == Success(r.value.record)
    {
      var entry: DirectoryEntry? := null;
      var begin := 0;
      var end := begin + header.articleCount;
      SearchAllStarts(D, TitleTable, title, closest, end);
      while begin <= end
        invariant Valid()
        invariant SearchAll(D, TitleTable, title, closest) == Search(D, TitleTable, title, closest, begin, end, Found(entry))
        invariant entry != null ==> D.title(entry.titleListIndex) == Success(entry.record)
        decreases end - begin + 1
      {
        var mid := begin + (end - begin) / 2;
        ghost var last := Found(entry);
        var probe := EntryAtTitlePosition(mid);
        if probe.Failure? {
          SearchProbeFails(D, TitleTable, title, closest, begin, end, last, mid);
          return Failure(probe.error);
        }
        entry := probe.value;
        SearchStep(D, TitleTable, title, closest, begin, end, last, mid, entry.record);
        if CompareTo(title, entry.record.title) < 0 {
          end := mid - 1;
        } else if CompareTo(title, entry.record.title) > 0 {
          begin := mid + 1;
        } else {
          return Success(entry);
        }
      }
      SearchEnds(D, TitleTable, title, closest, begin, end, Found(entry));
      r := Success(if closest then entry else null);
    }

    /** getDirectoryEntryFromEnd: scans the URL table down from its last
        position for an entry whose URL equals url, within the last
        MAX_ENTRIES_TO_SEARCH positions and above position 0. */
    method EntryFromEnd(url: string) returns (r: Result<DirectoryEntry?, Exception>)
      requires Valid()
      modifies this, stream
      ensures Valid()
      ensures FoundOf(r) == FromLast(D, url)
      ensures unchanged(this`titleCache)
    {
      var count := header.articleCount;
      var i := Int32(count - 1);
      while i > 0 && Int32(count - i) < MAX_ENTRIES_TO_SEARCH
        invariant Valid()
        invariant unchanged(this`titleCache)
        invariant FromLast(D, url) == FromEnd(D, url, i)
        decreases i
      {
        var e :- EntryAtUrlPosition(i);
        if e.record.url == url {
          return Success(e);
        }
        i := i - 1;
      }
      r := Success(null);
    }

    /** getData past its null check, from the cluster pointer on: the
        position of the entry's cluster, its compression byte, then the
        blob read from the file (stored) or from a decompressing stream
        that starts just after the compression byte (LZMA). */
    method ReadClusterBlob(e: EntryRecord) returns (r: Result<seq<byte>, Exception>)
      requires Valid() && e.kind.Article?
      modifies stream
      ensures r == ClusterData(data, header, unxz, legacy, e)
    {
      var o := stream.Seek(ClusterSlot(header, e.kind.clusterNumber));
      if o.Fail? {
        return Failure(o.error);
      }
      var clusterPos :- stream.ReadLongLe();
      o := stream.Seek(clusterPos);
      if o.Fail? {
        return Failure(o.error);
      }
      var compression := stream.Read();
      if compression == COMPRESSION_TYPE_NONE || compression == COMPRESSION_TYPE_NONE_OLD {
        r := ReadStoredBlob(stream, e.kind.blobNumber, TooManyBlobs(legacy));
      } else if compression == COMPRESSION_TYPE_LZMA {
        var xz := new ByteStream(unxz(Rest(data, stream.pos), MemoryLimit(legacy)), false);
        r := ReadXzBlob(xz, e.kind.blobNumber, TooManyBlobs(legacy));
      } else {
        r := Success([]);
      }
    }

    /** getData: null for a null entry, otherwise the content of the
        article its redirects lead to. */
    method GetData(entry: DirectoryEntry?) returns (r: Result<Option<seq<byte>>, Exception>)
      requires Valid()
      modifies this, stream
      ensures Valid()
      ensures r == Data(data, header, unxz, legacy, Found(entry))
      ensures unchanged(this`titleCache)
    {
      if entry == null {
        return Success(None);
      }
      var resolved := ResolveRedirect(entry);
      ResolveReads(D, data, header, entry.record, MAX_REDIRECTS);
      if resolved.Failure? {
        DataUnresolved(data, header, unxz, legacy, entry.record);
        return Failure(resolved.error);
      }
      DataOfArticle(data, header, unxz, legacy, entry.record, resolved.value.record);
      var blob := ReadClusterBlob(resolved.value.record);
      if blob.Failure? {
        return Failure(blob.error);
      }
      r := Success(Some(blob.value));
    }
  }
}
