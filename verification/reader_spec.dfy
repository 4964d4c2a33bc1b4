/** What the reader's lookups compute. The search, scan and redirect logic
    is stated over a Directory: the article count and the two lookups by
    position, in the URL table and in the Title table. Dir instantiates it
    with the archive's own tables, and the functions over the archive bytes
    below are the lookups of ZimReader and ZIMReader as they would run with
    caches that always miss. The classes in directory_index.dfy and the
    reader files perform the same lookups through the caches and the shared
    cursor and are proved to agree with these functions. */
module ReaderSpec {
  import opened Wrappers
  import opened Exceptions
  import opened Bytes
  import opened Streams
  import opened ZimFile
  import opened DirectoryEntries
  import opened DirectoryFormat
  import opened Clusters
  import opened JavaStrings
  import opened Util

  /** resolveRedirect's maxRedirects. */
  const MAX_REDIRECTS: nat := 16
  /** getDirectoryEntryFromEnd's maxEntriesToSearch. */
  const MAX_ENTRIES_TO_SEARCH: int := 256
  /** The memory limits the two readers give the XZ decoder. */
  const MEMORY_LIMIT: int := 100000
  const LEGACY_MEMORY_LIMIT: int := 4000000

  /** The directory as the lookups see it. */
  datatype Directory = Directory(
    count: int,
    url: int -> Result<EntryRecord, Exception>,
    title: int -> Result<EntryRecord, Exception>)

  /** The archive's directory: the header's article count and the entries
      at URL and Title positions. */
  function Dir(data: seq<byte>, h: Header): Directory
  {
    Directory(h.articleCount, i => UrlEntry(data, h, i), i => TitleEntry(data, h, i))
  }

  /** d answers every lookup as the archive's pointer tables do. */
  ghost predicate Reads(d: Directory, data: seq<byte>, h: Header)
  {
    && d.count == h.articleCount
    && (forall i {:trigger UrlEntry(data, h, i)} :: d.url(i) == UrlEntry(data, h, i))
    && (forall i {:trigger TitleEntry(data, h, i)} :: d.title(i) == TitleEntry(data, h, i))
  }

  lemma DirReads(data: seq<byte>, h: Header)
    ensures Reads(Dir(data, h), data, h)
  {
  }

  /** Every entry read at a URL position records that position. */
  ghost predicate Indexed(d: Directory)
  {
    forall i :: d.url(i).Success? ==> d.url(i).value.urlListIndex == i
  }

  lemma DirIndexed(data: seq<byte>, h: Header)
    ensures Indexed(Dir(data, h))
  {
    forall i | Dir(data, h).url(i).Success?
      ensures Dir(data, h).url(i).value.urlListIndex == i
    {
      assert Dir(data, h).url(i) == UrlEntry(data, h, i);
    }
  }

  // ---------------------------------------------------------------------
  // Redirects

  /** resolveRedirect with `hops` redirects left to follow: an entry that is
      not a redirect is the answer; a redirect is followed through the URL
      table; a redirect with no hops left is an IOException. */
  function Resolve(d: Directory, e: EntryRecord, hops: nat): (r: Result<EntryRecord, Exception>)
    ensures r.Success? ==> !r.value.kind.Redirect?
    ensures !e.kind.Redirect? ==> r == Success(e)
    decreases hops
  {
    if !e.kind.Redirect? then Success(e)
    else if hops == 0 then Failure(IOException(TOO_MANY_REDIRECTS))
    else
      var next :- d.url(e.kind.redirectIndex);
      Resolve(d, next, hops - 1)
  }

  /** Resolution looks only at the URL entries: two directories that read
      the same entries at every URL position resolve alike. */
  lemma {:induction false} ResolveSameUrls(d: Directory, d': Directory, e: EntryRecord, hops: nat)
    requires forall i :: d.url(i) == d'.url(i)
    ensures Resolve(d, e, hops) == Resolve(d', e, hops)
    decreases hops
  {
    if e.kind.Redirect? && hops > 0 {
      var next := d.url(e.kind.redirectIndex);
      assert next == d'.url(e.kind.redirectIndex);
      if next.Success? {
        ResolveSameUrls(d, d', next.value, hops - 1);
      }
    }
  }

  /** A directory that reads the archive resolves redirects as the
      archive's own directory does. */
  lemma ResolveReads(d: Directory, data: seq<byte>, h: Header, e: EntryRecord, hops: nat)
    requires Reads(d, data, h)
    ensures Resolve(d, e, hops) == Resolve(Dir(data, h), e, hops)
  {
    forall i
      ensures d.url(i) == Dir(data, h).url(i)
    {
      assert d.url(i) == UrlEntry(data, h, i);
    }
    ResolveSameUrls(d, Dir(data, h), e, hops);
  }

  /** Allowing more hops never changes an answer found within fewer. */
  lemma {:induction false} ResolveMoreHops(d: Directory, e: EntryRecord, hops: nat)
    requires Resolve(d, e, hops).Success?
    ensures Resolve(d, e, hops + 1) == Resolve(d, e, hops)
    decreases hops
  {
    if e.kind.Redirect? {
      ResolveMoreHops(d, d.url(e.kind.redirectIndex).value, hops - 1);
    }
  }

  /** A redirect that leads back to itself exhausts every hop and ends in
      the "Too many redirects." IOException. */
  lemma {:induction false} ResolveSelfRedirect(d: Directory, e: EntryRecord, hops: nat)
    requires e.kind.Redirect? && d.url(e.kind.redirectIndex) == Success(e)
    ensures Resolve(d, e, hops) == Failure(IOException(TOO_MANY_REDIRECTS))
    decreases hops
  {
    if hops > 0 {
      ResolveSelfRedirect(d, e, hops - 1);
    }
  }

  // ---------------------------------------------------------------------
  // Binary search by URL or by title

  datatype Table = UrlTable | TitleTable

  /** The entry at a position of the URL table or of the Title table. */
  function Probe(d: Directory, table: Table, position: int): Result<EntryRecord, Exception>
  {
    match table
    case UrlTable => d.url(position)
    case TitleTable => d.title(position)
  }

  /** The string a table is ordered by. */
  function KeyOf(table: Table, e: EntryRecord): string
  {
    match table
    case UrlTable => e.url
    case TitleTable => e.title
  }

  /** binarySearchByUrl / binarySearchByTitle over [begin, end], with last
      the entry probed most recently: a probe whose key compares equal is
      the answer; when the range is empty the answer is the last probe if
      the closest entry is wanted and null otherwise. */
  function Search(d: Directory, table: Table, key: string, closest: bool,
                  begin: int, end: int, last: Option<EntryRecord>): (r: Result<Option<EntryRecord>, Exception>)
    ensures r.Success? && r.value.Some? && !closest ==> KeyOf(table, r.value.value) == key
    ensures r.Success? && r.value.None? ==> !closest || (last.None? && begin > end)
    decreases end - begin + 1
  {
    if begin > end then Success(if closest then last else None)
    else
      var mid := begin + (end - begin) / 2;
      var e :- Probe(d, table, mid);
      var c := CompareTo(key, KeyOf(table, e));
      if c < 0 then Search(d, table, key, closest, begin, mid - 1, Some(e))
      else if c > 0 then Search(d, table, key, closest, mid + 1, end, Some(e))
      else
        CompareToZero(key, KeyOf(table, e));
        Success(Some(e))
  }

  /** The search as the readers start it: over [0, articleCount]. */
  function SearchAll(d: Directory, table: Table, key: string, closest: bool): Result<Option<EntryRecord>, Exception>
  {
    Search(d, table, key, closest, 0, d.count, None)
  }

  /** The key at a position, "" where nothing can be read. */
  function Key(d: Directory, table: Table, position: int): string
  {
    match Probe(d, table, position)
    case Success(e) => KeyOf(table, e)
    case Failure(_) => ""
  }

  /** Every position in [lo, hi] holds an entry, and their keys strictly
      increase in compareTo order. */
  predicate SortedIn(d: Directory, table: Table, lo: int, hi: int)
  {
    && (forall i :: lo <= i <= hi ==> Probe(d, table, i).Success?)
    && (forall i, j :: lo <= i < j <= hi ==> CompareTo(Key(d, table, i), Key(d, table, j)) < 0)
  }

  /** One step of the search: the probe at the middle of a non-empty range
      decides between the two halves and the answer. */
  lemma SearchStep(d: Directory, table: Table, key: string, closest: bool,
                   begin: int, end: int, last: Option<EntryRecord>, mid: int, e: EntryRecord)
    requires begin <= end && mid == begin + (end - begin) / 2 && Probe(d, table, mid) == Success(e)
    ensures CompareTo(key, KeyOf(table, e)) < 0 ==>
      Search(d, table, key, closest, begin, end, last) == Search(d, table, key, closest, begin, mid - 1, Some(e))
    ensures CompareTo(key, KeyOf(table, e)) > 0 ==>
      Search(d, table, key, closest, begin, end, last) == Search(d, table, key, closest, mid + 1, end, Some(e))
    ensures CompareTo(key, KeyOf(table, e)) == 0 ==>
      Search(d, table, key, closest, begin, end, last) == Success(Some(e))
  {
  }

  /** The search starts over [0, articleCount] with nothing probed. */
  lemma SearchAllStarts(d: Directory, table: Table, key: string, closest: bool, count: int)
    requires d.count == count
    ensures SearchAll(d, table, key, closest) == Search(d, table, key, closest, 0, count, None)
  {
  }

  /** An empty range answers the last probe or nothing. */
  lemma SearchEnds(d: Directory, table: Table, key: string, closest: bool,
                   begin: int, end: int, last: Option<EntryRecord>)
    requires begin > end
    ensures Search(d, table, key, closest, begin, end, last) == Success(if closest then last else None)
  {
  }

  /** A probe that fails ends the search with its exception. */
  lemma SearchProbeFails(d: Directory, table: Table, key: string, closest: bool,
                         begin: int, end: int, last: Option<EntryRecord>, mid: int)
    requires begin <= end && mid == begin + (end - begin) / 2 && Probe(d, table, mid).Failure?
    ensures Search(d, table, key, closest, begin, end, last) == Failure(Probe(d, table, mid).error)
  {
  }

  /** Position k of [begin, end] holds key, every position before it a
      smaller key and every position after it a greater one. */
  predicate PlacedAt(d: Directory, table: Table, key: string, begin: int, end: int, k: int)
  {
    && begin <= k <= end && Key(d, table, k) == key
    && (forall i :: begin <= i <= end ==> Probe(d, table, i).Success?)
    && (forall i :: begin <= i < k ==> CompareTo(key, Key(d, table, i)) > 0)
    && (forall i :: k < i <= end ==> CompareTo(key, Key(d, table, i)) < 0)
  }

  /** A key placed at k is found, and the entry found is the one at k. */
  lemma {:induction false} SearchFindsPlaced(d: Directory, table: Table, key: string, closest: bool,
                                              begin: int, end: int, last: Option<EntryRecord>, k: int)
    requires PlacedAt(d, table, key, begin, end, k)
    ensures Search(d, table, key, closest, begin, end, last) == Success(Some(Probe(d, table, k).value))
    decreases end - begin
  {
    var mid := begin + (end - begin) / 2;
    var e := Probe(d, table, mid).value;
    assert Key(d, table, mid) == KeyOf(table, e);
    SearchStep(d, table, key, closest, begin, end, last, mid, e);
    if k < mid {
      SearchFindsPlaced(d, table, key, closest, begin, mid - 1, Some(e), k);
    } else if k > mid {
      SearchFindsPlaced(d, table, key, closest, mid + 1, end, Some(e), k);
    } else {
      CompareToZero(key, KeyOf(table, e));
    }
  }

  /** In a sorted range every key is placed at its own position. */
  lemma SortedPlaced(d: Directory, table: Table, begin: int, end: int, k: int)
    requires SortedIn(d, table, begin, end) && begin <= k <= end
    ensures PlacedAt(d, table, Key(d, table, k), begin, end, k)
  {
    forall i | begin <= i < k
      ensures CompareTo(Key(d, table, k), Key(d, table, i)) > 0
    {
      CompareToAntisymmetric(Key(d, table, i), Key(d, table, k));
    }
  }

  /** On a sorted range, a key present at position k is found, and the
      entry found is the one at k. */
  lemma SearchFinds(d: Directory, table: Table, key: string, closest: bool,
                    begin: int, end: int, last: Option<EntryRecord>, k: int)
    requires SortedIn(d, table, begin, end) && begin <= k <= end
    requires Key(d, table, k) == key
    ensures Search(d, table, key, closest, begin, end, last) == Success(Some(Probe(d, table, k).value))
  {
    SortedPlaced(d, table, begin, end, k);
    SearchFindsPlaced(d, table, key, closest, begin, end, last, k);
  }

  /** The search over [begin, hi + 1] as the readers start it, where
      position hi + 1 may hold nothing: a key placed at k <= hi is found
      without that position ever being probed. */
  lemma {:induction false} SearchFindsBelowEnd(d: Directory, table: Table, key: string, closest: bool,
                                                begin: int, end: int, last: Option<EntryRecord>, k: int, hi: int)
    requires PlacedAt(d, table, key, begin, hi, k) && hi <= end <= hi + 1
    ensures Search(d, table, key, closest, begin, end, last) == Success(Some(Probe(d, table, k).value))
    decreases end - begin
  {
    var mid := begin + (end - begin) / 2;
    var e := Probe(d, table, mid).value;
    assert Key(d, table, mid) == KeyOf(table, e);
    SearchStep(d, table, key, closest, begin, end, last, mid, e);
    if k < mid {
      SearchFindsPlaced(d, table, key, closest, begin, mid - 1, Some(e), k);
    } else if k > mid {
      SearchFindsBelowEnd(d, table, key, closest, mid + 1, end, Some(e), k, hi);
    } else {
      CompareToZero(key, KeyOf(table, e));
    }
  }

  /** binarySearchByUrl and binarySearchByTitle over a table whose
      articleCount entries are readable and sorted: a key present at
      position k is found, and the entry found is the one at k, whatever
      lies past the table. */
  lemma SearchAllFinds(d: Directory, table: Table, key: string, closest: bool, k: int)
    requires 0 <= k < d.count && SortedIn(d, table, 0, d.count - 1) && Key(d, table, k) == key
    ensures SearchAll(d, table, key, closest) == Success(Some(Probe(d, table, k).value))
  {
    SortedPlaced(d, table, 0, d.count - 1, k);
    SearchFindsBelowEnd(d, table, key, closest, 0, d.count, None, k, d.count - 1);
  }

  /** A key past every key of [begin, count) drives the search to probe
      position count itself, so a failed read there fails the search. */
  lemma {:induction false} SearchRightward(d: Directory, table: Table, key: string, closest: bool,
                                            begin: int, count: int, last: Option<EntryRecord>)
    requires 0 <= begin <= count
    requires forall i :: begin <= i < count ==>
      Probe(d, table, i).Success? && CompareTo(key, KeyOf(table, Probe(d, table, i).value)) > 0
    requires Probe(d, table, count).Failure?
    ensures Search(d, table, key, closest, begin, count, last) == Failure(Probe(d, table, count).error)
    decreases count - begin
  {
    var mid := begin + (count - begin) / 2;
    if mid < count {
      SearchRightward(d, table, key, closest, mid + 1, count, Some(Probe(d, table, mid).value));
    }
  }

  /** The range starts at [0, articleCount], one past the last entry: a
      key greater than every key of the table makes the search read the
      slot after the table, and a failed read there fails the search. */
  lemma SearchPastLast(d: Directory, table: Table, key: string, closest: bool)
    requires 0 <= d.count
    requires forall i :: 0 <= i < d.count ==>
      Probe(d, table, i).Success? && CompareTo(key, KeyOf(table, Probe(d, table, i).value)) > 0
    requires Probe(d, table, d.count).Failure?
    ensures SearchAll(d, table, key, closest) == Failure(Probe(d, table, d.count).error)
  {
    SearchRightward(d, table, key, closest, 0, d.count, None);
  }

  // ---------------------------------------------------------------------
  // Metadata entries near the end of the URL table

  /** Whether getDirectoryEntryFromEnd's loop goes on at position i:
      `i > 0 && articleCount - i < maxEntriesToSearch` in `int` arithmetic. */
  predicate InWindow(count: int, i: int)
  {
    i > 0 && Int32(count - i) < MAX_ENTRIES_TO_SEARCH
  }

  /** Position i holds an entry whose URL is not the one sought. */
  predicate Missed(d: Directory, url: string, i: int)
  {
    d.url(i).Success? && d.url(i).value.url != url
  }

  /** The position at which the backward scan from i stops. */
  function ScanEnd(count: int, i: int): (r: int)
    ensures r <= i && !InWindow(count, r)
    ensures forall j :: r < j <= i ==> InWindow(count, j)
    decreases if i > 0 then i else 0
  {
    if InWindow(count, i) then ScanEnd(count, i - 1) else i
  }

  /** getDirectoryEntryFromEnd from position i down: the first entry whose
      URL equals url, or null once the window is left. */
  function FromEnd(d: Directory, url: string, i: int): (r: Result<Option<EntryRecord>, Exception>)
    ensures Indexed(d) && r.Success? && r.value.Some? ==>
      var e := r.value.value;
      && e.url == url && d.url(e.urlListIndex) == Success(e)
      && ScanEnd(d.count, i) < e.urlListIndex <= i
      && forall j :: e.urlListIndex < j <= i ==> Missed(d, url, j)
    ensures r.Success? && r.value.None? ==> forall j :: ScanEnd(d.count, i) < j <= i ==> Missed(d, url, j)
    decreases if i > 0 then i else 0
  {
    if !InWindow(d.count, i) then Success(None)
    else
      var e :- d.url(i);
      if e.url == url then Success(Some(e)) else FromEnd(d, url, i - 1)
  }

  /** The scan as getDirectoryEntryFromEnd starts it, at articleCount - 1. */
  function FromLast(d: Directory, url: string): Result<Option<EntryRecord>, Exception>
  {
    FromEnd(d, url, Int32(d.count - 1))
  }

  /** For an article count that is a positive `int`, the scan from i covers
      the positions down to articleCount - 255, never position 0. */
  lemma {:induction false} ScanWindow(count: int, i: int)
    requires 0 < count < TWO_31 && 0 <= i < count
    ensures ScanEnd(count, i) == if i <= count - MAX_ENTRIES_TO_SEARCH then i else Max(0, count - MAX_ENTRIES_TO_SEARCH)
    decreases i
  {
    if InWindow(count, i) {
      ScanWindow(count, i - 1);
    }
  }

  // ---------------------------------------------------------------------
  // The article namespace in the Title table

  /** getFirstArticleTitleIndex from index on: the first title position in
      namespace 'A', or -1 if there is none before articleCount. */
  function FirstArticle(d: Directory, index: nat): (r: Result<int, Exception>)
    ensures r.Success? && r.value != -1 ==>
      index <= r.value < d.count && d.title(r.value).Success? && d.title(r.value).value.namespace == 'A'
    ensures r.Success? ==> forall j :: index <= j < (if r.value == -1 then d.count else r.value) ==>
      d.title(j).Success? && d.title(j).value.namespace != 'A'
    ensures r.Success? ==> r.value == -1 || index <= r.value
    decreases d.count - index
  {
    if index >= d.count then Success(-1)
    else
      var e :- d.title(index);
      if e.namespace == 'A' then Success(index) else FirstArticle(d, index + 1)
  }

  /** getLastArticleTitleIndex over [begin, end] with mid the last probe:
      a binary search that goes left on an entry outside namespace 'A' and
      right on one inside it, answering the last position probed. */
  function LastArticle(d: Directory, begin: int, end: int, mid: int): (r: Result<int, Exception>)
    ensures r.Success? && begin <= end ==> begin <= r.value <= end
    ensures begin > end ==> r == Success(mid)
    decreases end - begin + 1
  {
    if begin > end then Success(mid)
    else
      var m := begin + (end - begin) / 2;
      var e :- d.title(m);
      if e.namespace != 'A' then LastArticle(d, begin, m - 1, m)
      else LastArticle(d, m + 1, end, m)
  }

  /** The search as getLastArticleTitleIndex starts it. */
  function LastArticleAll(d: Directory): Result<int, Exception>
  {
    LastArticle(d, 0, d.count, 0)
  }

  /** The Title table's positions in [lo, hi] hold entries, those up to
      last in namespace 'A' and the others outside it. */
  predicate ArticlesUpTo(d: Directory, lo: int, hi: int, last: int)
  {
    forall i :: lo <= i <= hi ==>
      d.title(i).Success? && (d.title(i).value.namespace == 'A' <==> i <= last)
  }

  lemma {:induction false} LastArticleSplit(d: Directory, begin: int, end: int, mid: int, last: int)
    requires begin - 1 <= last <= end && ArticlesUpTo(d, begin, end, last)
    requires begin <= end || mid == last || mid == last + 1
    ensures LastArticle(d, begin, end, mid) == Success(last) || LastArticle(d, begin, end, mid) == Success(last + 1)
    decreases end - begin + 1
  {
    if begin <= end {
      var m := begin + (end - begin) / 2;
      if m <= last {
        LastArticleSplit(d, m + 1, end, m, last);
      } else {
        LastArticleSplit(d, begin, m - 1, m, last);
      }
    }
  }

  /** When the articles are the positions 0 to last of a Title table read
      over [0, articleCount], the search answers last or last + 1: the last
      article or the first position after it, whichever it probed last. */
  lemma LastArticleBoundary(d: Directory, last: int)
    requires 0 <= d.count && -1 <= last <= d.count
    requires ArticlesUpTo(d, 0, d.count, last)
    ensures LastArticleAll(d) == Success(last) || LastArticleAll(d) == Success(last + 1)
  {
    LastArticleSplit(d, 0, d.count, 0, last);
  }

  // ---------------------------------------------------------------------
  // Blob extraction

  function TooManyBlobs(legacy: bool): Exception
  {
    if legacy then IllegalArgumentException(TOO_MANY_BLOBS) else IOException(TOO_MANY_BLOBS)
  }

  function MemoryLimit(legacy: bool): int
  {
    if legacy then LEGACY_MEMORY_LIMIT else MEMORY_LIMIT
  }

  /** `clusterPtrPos + clusterNumber * BYTES_PER_LONG`, the product an `int`
      and the sum a `long`. */
  function ClusterSlot(h: Header, clusterNumber: int): int
  {
    Int64(h.clusterPtrPos + Int32(clusterNumber * BYTES_PER_LONG))
  }

  /** The bytes of the file from p on, which the decompressor reads. */
  function Rest(data: seq<byte>, p: nat): seq<byte>
  {
    if p <= |data| then data[p..] else []
  }

  /** getData for a resolved article entry: the cluster's position from
      the cluster pointer table, its compression byte, then the blob by
      the offset-table arithmetic over the file (stored) or over the
      decompressed bytes (LZMA); any other compression byte gives nothing.
      unxz stands for the XZ decompressor with the reader's memory limit. */
  function ClusterData(data: seq<byte>, h: Header, unxz: (seq<byte>, int) -> seq<byte>, legacy: bool, e: EntryRecord): (r: Result<seq<byte>, Exception>)
    requires e.kind.Article?
  {
    var slot := ClusterSlot(h, e.kind.clusterNumber);
    if slot < 0 then Failure(IllegalArgumentException(BAD_ARGUMENT))
    else
      var c :- LongLe(data, slot);
      if c.value < 0 then Failure(IllegalArgumentException(BAD_ARGUMENT))
      else
        var compression := ByteAt(data, c.value);
        var p := Advance(data, c.value);
        if compression == COMPRESSION_TYPE_NONE || compression == COMPRESSION_TYPE_NONE_OLD then
          StoredBlob(data, p, e.kind.blobNumber, TooManyBlobs(legacy))
        else if compression == COMPRESSION_TYPE_LZMA then
          XzBlob(unxz(Rest(data, p), MemoryLimit(legacy)), 0, e.kind.blobNumber, TooManyBlobs(legacy))
        else Success([])
  }

  /** getData: null for no entry, otherwise the content of the entry the
      redirects lead to. */
  function Data(data: seq<byte>, h: Header, unxz: (seq<byte>, int) -> seq<byte>, legacy: bool, entry: Option<EntryRecord>): (r: Result<Option<seq<byte>>, Exception>)
    ensures entry.None? ==> r == Success(None)
    ensures r.Success? && entry.Some? ==> r.value.Some?
  {
    if entry.None? then Success(None)
    else
      var e :- Resolve(Dir(data, h), entry.value, MAX_REDIRECTS);
      var blob :- ClusterData(data, h, unxz, legacy, e);
      Success(Some(blob))
  }

  /** getData of an entry whose redirects cannot be resolved is the
      exception of the resolution. */
  lemma DataUnresolved(data: seq<byte>, h: Header, unxz: (seq<byte>, int) -> seq<byte>, legacy: bool, entry: EntryRecord)
    requires Resolve(Dir(data, h), entry, MAX_REDIRECTS).Failure?
    ensures Data(data, h, unxz, legacy, Some(entry)) == Failure(Resolve(Dir(data, h), entry, MAX_REDIRECTS).error)
  {
  }

  /** The cluster of an article: its pointer-table slot holds c, which lies
      within the file. */
  predicate ClusterAt(data: seq<byte>, h: Header, e: EntryRecord, c: int)
  {
    && e.kind.Article?
    && 0 <= ClusterSlot(h, e.kind.clusterNumber)
    && LongLe(data, ClusterSlot(h, e.kind.clusterNumber)).Success?
    && LongLe(data, ClusterSlot(h, e.kind.clusterNumber)).value.value == c
    && 0 <= c < |data|
  }

  /** getData of an entry is the content of the article it resolves to,
      or that content's exception. */
  lemma DataOfArticle(data: seq<byte>, h: Header, unxz: (seq<byte>, int) -> seq<byte>, legacy: bool,
                      entry: EntryRecord, e: EntryRecord)
    requires Resolve(Dir(data, h), entry, MAX_REDIRECTS) == Success(e)
    ensures e.kind.Article?
    ensures ClusterData(data, h, unxz, legacy, e).Success? ==>
      Data(data, h, unxz, legacy, Some(entry)) == Success(Some(ClusterData(data, h, unxz, legacy, e).value))
    ensures ClusterData(data, h, unxz, legacy, e).Failure? ==>
      Data(data, h, unxz, legacy, Some(entry)) == Failure(ClusterData(data, h, unxz, legacy, e).error)
  {
  }

  /** A stored cluster's content is read from the file just past its
      compression byte. */
  lemma ClusterIsStored(data: seq<byte>, h: Header, unxz: (seq<byte>, int) -> seq<byte>, legacy: bool, e: EntryRecord, c: int)
    requires ClusterAt(data, h, e, c)
    requires data[c] == COMPRESSION_TYPE_NONE || data[c] == COMPRESSION_TYPE_NONE_OLD
    ensures ClusterData(data, h, unxz, legacy, e) == StoredBlob(data, c + 1, e.kind.blobNumber, TooManyBlobs(legacy))
  {
  }

  /** An LZMA cluster's content is read from the decompressed bytes that
      follow its compression byte. */
  lemma ClusterIsXz(data: seq<byte>, h: Header, unxz: (seq<byte>, int) -> seq<byte>, legacy: bool, e: EntryRecord, c: int)
    requires ClusterAt(data, h, e, c)
    requires data[c] == COMPRESSION_TYPE_LZMA
    ensures ClusterData(data, h, unxz, legacy, e)
      == XzBlob(unxz(data[c + 1..], MemoryLimit(legacy)), 0, e.kind.blobNumber, TooManyBlobs(legacy))
  {
    assert Advance(data, c) == c + 1 && Rest(data, c + 1) == data[c + 1..];
  }

  /** For an entry that leads to an article in a stored cluster whose
      offset table is well formed, getData gives exactly blob b of the
      table, and for a blob number at or past the table's entry count the
      TOO_MANY_BLOBS exception. */
  lemma DataStored(data: seq<byte>, h: Header, unxz: (seq<byte>, int) -> seq<byte>, legacy: bool,
                   entry: EntryRecord, e: EntryRecord, c: int, count: nat)
    requires Resolve(Dir(data, h), entry, MAX_REDIRECTS) == Success(e) && ClusterAt(data, h, e, c)
    requires data[c] == COMPRESSION_TYPE_NONE || data[c] == COMPRESSION_TYPE_NONE_OLD
    requires OffsetTable(data, c + 1, count)
    ensures 0 <= e.kind.blobNumber < count - 1 ==>
      Data(data, h, unxz, legacy, Some(entry)) == Success(Some(Blob(data, c + 1, count, e.kind.blobNumber)))
    ensures e.kind.blobNumber >= count ==>
      Data(data, h, unxz, legacy, Some(entry)) == Failure(TooManyBlobs(legacy))
  {
    DataOfArticle(data, h, unxz, legacy, entry, e);
    ClusterIsStored(data, h, unxz, legacy, e, c);
    StoredBlobSpec(data, c + 1, count, e.kind.blobNumber, TooManyBlobs(legacy));
  }

  /** The same for an LZMA cluster, whose offset table lies at the start of
      the decompressed bytes. */
  lemma DataXz(data: seq<byte>, h: Header, unxz: (seq<byte>, int) -> seq<byte>, legacy: bool,
               entry: EntryRecord, e: EntryRecord, c: int, count: nat)
    requires Resolve(Dir(data, h), entry, MAX_REDIRECTS) == Success(e) && ClusterAt(data, h, e, c)
    requires data[c] == COMPRESSION_TYPE_LZMA
    requires OffsetTable(unxz(data[c + 1..], MemoryLimit(legacy)), 0, count)
    ensures 0 <= e.kind.blobNumber < count - 1 ==>
      Data(data, h, unxz, legacy, Some(entry))
        == Success(Some(Blob(unxz(data[c + 1..], MemoryLimit(legacy)), 0, count, e.kind.blobNumber)))
    ensures e.kind.blobNumber >= count ==>
      Data(data, h, unxz, legacy, Some(entry)) == Failure(TooManyBlobs(legacy))
  {
    DataOfArticle(data, h, unxz, legacy, entry, e);
    ClusterIsXz(data, h, unxz, legacy, e, c);
    XzBlobSpec(unxz(data[c + 1..], MemoryLimit(legacy)), 0, count, e.kind.blobNumber, TooManyBlobs(legacy));
  }

  /** A compression byte other than 0, 1 and 4 gives an empty result and
      no error. */
  lemma DataUnknownCompression(data: seq<byte>, h: Header, unxz: (seq<byte>, int) -> seq<byte>, legacy: bool,
                               entry: EntryRecord, e: EntryRecord, c: int)
    requires Resolve(Dir(data, h), entry, MAX_REDIRECTS) == Success(e) && ClusterAt(data, h, e, c)
    requires data[c] != COMPRESSION_TYPE_NONE && data[c] != COMPRESSION_TYPE_NONE_OLD && data[c] != COMPRESSION_TYPE_LZMA
    ensures Data(data, h, unxz, legacy, Some(entry)) == Success(Some([]))
  {
    DataOfArticle(data, h, unxz, legacy, entry, e);
  }

  // ---------------------------------------------------------------------
  // The public lookups

  /** getDataForSpecialUrl: the content of the metadata entry url. */
  function SpecialData(data: seq<byte>, h: Header, unxz: (seq<byte>, int) -> seq<byte>, legacy: bool, url: string): Result<Option<seq<byte>>, Exception>
  {
    var found :- FromLast(Dir(data, h), url);
    Data(data, h, unxz, legacy, found)
  }

  /** getDataForUrl: the content of the entry with that URL, if any. */
  function DataForUrl(data: seq<byte>, h: Header, unxz: (seq<byte>, int) -> seq<byte>, legacy: bool, url: string): Result<Option<seq<byte>>, Exception>
  {
    var found :- SearchAll(Dir(data, h), UrlTable, url, false);
    Data(data, h, unxz, legacy, found)
  }

  /** getDataForTitle: the content of the entry with that title, if any. */
  function DataForTitle(data: seq<byte>, h: Header, unxz: (seq<byte>, int) -> seq<byte>, legacy: bool, title: string): Result<Option<seq<byte>>, Exception>
  {
    var found :- SearchAll(Dir(data, h), TitleTable, title, false);
    Data(data, h, unxz, legacy, found)
  }

  /** Content bytes as text, one character per byte. */
  function Text(bytes: seq<byte>): string
  {
    Latin1(bytes)
  }

  /** ZimReader.getZimTitle: the "Title" metadata, or "" without one. */
  function ZimTitle(data: seq<byte>, h: Header, unxz: (seq<byte>, int) -> seq<byte>): Result<string, Exception>
  {
    var t :- SpecialData(data, h, unxz, false, "Title");
    Success(if t.Some? then Text(t.value) else "")
  }

  /** ZimReader.getZimDescription: the "Description" metadata, else the
      "Subtitle" metadata, else "". */
  function ZimDescription(data: seq<byte>, h: Header, unxz: (seq<byte>, int) -> seq<byte>): Result<string, Exception>
  {
    var t :- SpecialData(data, h, unxz, false, "Description");
    if t.Some? then Success(Text(t.value))
    else
      var s :- SpecialData(data, h, unxz, false, "Subtitle");
      Success(if s.Some? then Text(s.value) else "")
  }

  /** ZIMReader's getZimTitle and getZimDescription: the metadata entry
      url, and a NullPointerException when there is none. */
  function LegacyMetadata(data: seq<byte>, h: Header, unxz: (seq<byte>, int) -> seq<byte>, url: string): Result<string, Exception>
  {
    var t :- SpecialData(data, h, unxz, true, url);
    if t.None? then Failure(NullPointerException) else Success(Text(t.value))
  }

  /** getMainPageTitle: the title of the main page's URL entry; a negative
      main page is an IOException. */
  function MainPageTitle(data: seq<byte>, h: Header): (r: Result<string, Exception>)
    ensures h.mainPage < 0 ==> r == Failure(IOException(NO_MAIN_PAGE))
    ensures h.mainPage >= 0 && UrlEntry(data, h, h.mainPage).Success? ==> r == Success(UrlEntry(data, h, h.mainPage).value.title)
  {
    if h.mainPage < 0 then Failure(IOException(NO_MAIN_PAGE))
    else
      var e :- UrlEntry(data, h, h.mainPage);
      Success(e.title)
  }

  /** getNormalizedTitle: the title of the entry the exact title search
      finds, after its redirects; the new reader capitalises the title
      first, the legacy one searches it verbatim. No entry is a
      NullPointerException. */
  function NormalizedTitle(data: seq<byte>, h: Header, legacy: bool, title: string): Result<string, Exception>
  {
    var key := if legacy then title else Capitalize(title);
    var found :- SearchAll(Dir(data, h), TitleTable, key, false);
    if found.None? then Failure(NullPointerException)
    else
      var e :- Resolve(Dir(data, h), found.value, MAX_REDIRECTS);
      Success(e.title)
  }

  /** Random.nextInt(bound) with `pick` standing for the generator's draw:
      a value in [0, bound); a bound that is not positive is an
      IllegalArgumentException. */
  function NextInt(bound: int, pick: nat): (r: Result<int, Exception>)
    ensures r.Success? <==> bound > 0
    ensures r.Success? ==> 0 <= r.value < bound
    ensures r.Failure? ==> r.error == IllegalArgumentException(BAD_ARGUMENT)
  {
    if bound <= 0 then Failure(IllegalArgumentException(BAD_ARGUMENT)) else Success(pick % bound)
  }

  /** The title position getRandomTitle draws: first + nextInt(last - first)
      in `int` arithmetic. */
  function RandomPosition(first: int, last: int, pick: nat): Result<int, Exception>
  {
    var n :- NextInt(Int32(last - first), pick);
    Success(Int32(first + n))
  }

  /** Between `int` bounds the drawn position lies in [first, last), and
      the draw fails exactly when the range is empty. */
  lemma RandomPositionInRange(first: int, last: int, pick: nat)
    requires IsInt32(first) && IsInt32(last) && IsInt32(last - first)
    ensures RandomPosition(first, last, pick).Success? <==> first < last
    ensures RandomPosition(first, last, pick).Success? ==> first <= RandomPosition(first, last, pick).value < last
  {
  }

  /** getRandomTitle: the title, after its redirects, at a position drawn
      from [first, last) of the article namespace. */
  function RandomTitle(data: seq<byte>, h: Header, pick: nat): Result<string, Exception>
  {
    var first :- FirstArticle(Dir(data, h), 0);
    var last :- LastArticleAll(Dir(data, h));
    var i :- RandomPosition(first, last, pick);
    var e :- TitleEntry(data, h, i);
    var a :- Resolve(Dir(data, h), e, MAX_REDIRECTS);
    Success(a.title)
  }

  // ---------------------------------------------------------------------
  // Prefix search

  /** Whether a title is listed for the (capitalised) prefix: the new reader
      tests the title itself, the legacy reader its lower-cased form. */
  predicate PrefixMatch(title: string, prefix: string, legacy: bool)
  {
    if legacy then StartsWith(ToLower(title), prefix) else StartsWith(title, prefix)
  }

  /** searchByPrefix's loop from title position index with n iterations
      left: the matching titles in Title-table order, stopping at
      articleCount. */
  function PrefixScan(d: Directory, prefix: string, legacy: bool, index: int, n: int): (r: Result<seq<string>, Exception>)
    ensures r.Success? ==> |r.value| <= Max(n, 0)
    ensures r.Success? ==> forall k :: 0 <= k < |r.value| ==> PrefixMatch(r.value[k], prefix, legacy)
    decreases n
  {
    if n <= 0 then Success([])
    else
      var e :- d.title(index);
      var here := if PrefixMatch(e.title, prefix, legacy) then [e.title] else [];
      if index + 1 >= d.count then Success(here)
      else
        var rest :- PrefixScan(d, prefix, legacy, index + 1, n - 1);
        Success(here + rest)
  }

  /** The legacy reader capitalises the prefix but compares it with the
      lower-cased title, so a prefix that starts with a letter matches no
      title at all. */
  lemma LegacyPrefixLetterNeverMatches(title: string, prefix: string)
    requires prefix != [] && ('a' <= prefix[0] <= 'z' || 'A' <= prefix[0] <= 'Z')
    ensures !PrefixMatch(title, Capitalize(prefix), true)
  {
    var p := Capitalize(prefix);
    assert 'A' <= p[0] <= 'Z';
    if |p| <= |title| {
      assert ToLower(title)[..|p|][0] == ToLowerChar(title[0]);
    }
  }
}
