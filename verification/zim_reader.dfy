/** ZimReader: the public lookups of the reader for current ZIM files over
    one archive. The archive's bytes and header come from a ZimFile; the
    lookups go through a DirectoryIndex (its stream, its two entry caches)
    and the article bounds through an ArticleRange, and the reader itself
    remembers the archive's title and description once read. Each method
    is proved to answer what the matching function of ReaderSpec says. */
module ZimReaders {
  import opened Wrappers
  import opened Exceptions
  import opened Bytes
  import opened ZimFile
  import opened DirectoryEntries
  import opened JavaStrings
  import opened Util
  import opened ReaderSpec
  import opened DirectoryLookup
  import opened ArticleRanges
  import opened PrefixSearch

  class ZimReader {
    /** The lookups over the file, with the stream and the caches. */
    const index: DirectoryIndex
    /** firstArticleTitleIndex and lastArticleTitleIndex. */
    const range: ArticleRange
    /** zimTitle and zimDescription; None is Java's null, not read yet. */
    var zimTitle: Option<string>
    var zimDescription: Option<string>

    /** The index reads this archive as a current file and the bounds are
        those of its directory. */
    ghost predicate Valid()
      reads this, index, index.Entries, range
    {
      && index.Valid() && !index.legacy
      && index.D == Dir(index.data, index.header)
      && range.index == index && range.Valid()
    }

    /** A remembered title or description is the archive's. Only the two
        metadata methods change these fields, so every other lookup keeps
        this without saying so. */
    ghost predicate Remembered()
      reads this
    {
      && (zimTitle.Some? ==> ZimTitle(index.data, index.header, index.unxz) == Success(zimTitle.value))
      && (zimDescription.Some? ==> ZimDescription(index.data, index.header, index.unxz) == Success(zimDescription.value))
    }

    /** ZimReader(ZimFile): a reader over the file's bytes and header, with
        empty caches and nothing remembered. unxz stands for the XZ
        decompressor. */
    constructor (file: ZimFile, unxz: (seq<byte>, int) -> seq<byte>)
      ensures index.data == file.data && index.header == file.header && index.unxz == unxz
      ensures zimTitle.None? && zimDescription.None?
      ensures Valid() && Remembered()
    {
      var lookups := new DirectoryIndex(file.data, file.header, false, unxz);
      index := lookups;
      range := new ArticleRange(lookups);
      zimTitle := None;
      zimDescription := None;
    }

    /** getZimTitle: the remembered title, or the "Title" metadata as
        text ("" without one), remembered. */
    method GetZimTitle() returns (r: Result<string, Exception>)
      requires Valid() && Remembered()
      modifies this, index, index.stream
      ensures Valid() && Remembered()
      ensures r == ZimTitle(index.data, index.header, index.unxz)
      ensures zimTitle == if r.Success? then Some(r.value) else old(zimTitle)
      ensures unchanged(this`zimDescription)
    {
      if zimTitle.Some? {
        return Success(zimTitle.value);
      }
      var stream :- GetDataForSpecialUrl("Title");
      var title := if stream.Some? then Text(stream.value) else "";
      zimTitle := Some(title);
      r := Success(title);
    }

    /** getZimDescription: the remembered description, or the
        "Description" metadata, else the "Subtitle" metadata, else "",
        remembered. */
    method GetZimDescription() returns (r: Result<string, Exception>)
      requires Valid() && Remembered()
      modifies this, index, index.stream
      ensures Valid() && Remembered()
      ensures r == ZimDescription(index.data, index.header, index.unxz)
      ensures zimDescription == if r.Success? then Some(r.value) else old(zimDescription)
      ensures unchanged(this`zimTitle)
    {
      if zimDescription.Some? {
        return Success(zimDescription.value);
      }
      var stream :- GetDataForSpecialUrl("Description");
      var description;
      if stream.Some? {
        description := Text(stream.value);
      } else {
        var subtitle :- GetDataForSpecialUrl("Subtitle");
        description := if subtitle.Some? then Text(subtitle.value) else "";
      }
      zimDescription := Some(description);
      r := Success(description);
    }

    /** getRandomTitle: the title, after its redirects, at first +
        nextInt(last - first) between the article bounds; pick stands for
        the generator's draw. */
    method GetRandomTitle(pick: nat) returns (r: Result<string, Exception>)
      requires Valid()
      modifies index, index.stream, range, iset e: DirectoryEntry | Stampable(e)
      ensures Valid()
      ensures r == RandomTitle(index.data, index.header, pick)
    {
      var first :- range.FirstArticleTitleIndex();
      var last :- range.LastArticleTitleIndex();
      var position :- RandomPosition(first, last, pick);
      var entry :- index.EntryAtTitlePosition(position);
      var article :- index.ResolveRedirect(entry);
      r := Success(article.record.title);
    }

    /** getMainPageTitle: a negative main page is an IOException, otherwise
        the title of the entry at the main page's URL position. */
    method GetMainPageTitle() returns (r: Result<string, Exception>)
      requires Valid()
      modifies index, index.stream
      ensures Valid()
      ensures r == MainPageTitle(index.data, index.header)
    {
      if index.header.mainPage < 0 {
        return Failure(IOException(NO_MAIN_PAGE));
      }
      var entry :- index.EntryAtUrlPosition(index.header.mainPage);
      r := Success(entry.record.title);
    }

    /** searchByPrefix: the closest title search for the capitalised
        prefix, then the scan from the title position of the entry it
        answers (0 if negative); no entry gives no titles. That position
        is the one the entry was last read at, start, whose title entry is
        the one the search answers. */
    method SearchByPrefix(prefix: string, maxResults: int) returns (r: Result<seq<string>, Exception>, ghost start: int)
      requires Valid()
      modifies index, index.stream, iset e: DirectoryEntry | Stampable(e)
      ensures Valid()
      ensures var s := SearchAll(index.D, TitleTable, Capitalize(prefix), true);
        && (s.Failure? ==> r == Failure(s.error))
        && (s == Success(None) ==> r == Success([]))
        && (s.Success? && s.value.Some? ==>
              && index.D.title(start) == Success(s.value.value)
              && r == PrefixScan(index.D, Capitalize(prefix), false, Max(start, 0), maxResults))
    {
      start := 0;
      var key := Capitalize(prefix);
      var entry :- index.BinarySearchByTitle(key, true);
      if entry == null {
        return Success([]), start;
      }
      var position := entry.titleListIndex;
      start := position;
      if position < 0 {
        position := 0;
      }
      r := ScanTitles(index, key, false, position, maxResults);
    }

    /** getNormalizedTitle: the title, after its redirects, of the entry
        the exact search for the capitalised title finds; none is a
        NullPointerException. */
    method GetNormalizedTitle(title: string) returns (r: Result<string, Exception>)
      requires Valid()
      modifies index, index.stream, iset e: DirectoryEntry | Stampable(e)
      ensures Valid()
      ensures r == NormalizedTitle(index.data, index.header, false, title)
    {
      var entry :- index.BinarySearchByTitle(Capitalize(title), false);
      if entry == null {
        return Failure(NullPointerException);
      }
      var article :- index.ResolveRedirect(entry);
      r := Success(article.record.title);
    }

    /** getDataForUrl: the content of the entry with exactly that URL. */
    method GetDataForUrl(url: string) returns (r: Result<Option<seq<byte>>, Exception>)
      requires Valid()
      modifies index, index.stream, iset e: DirectoryEntry | Stampable(e)
      ensures Valid()
      ensures r == DataForUrl(index.data, index.header, index.unxz, false, url)
    {
      var entry :- index.BinarySearchByUrl(url, false);
      r := index.GetData(entry);
    }

    /** getDataForTitle: the content of the entry with exactly that title,
        which is not capitalised first. */
    method GetDataForTitle(title: string) returns (r: Result<Option<seq<byte>>, Exception>)
      requires Valid()
      modifies index, index.stream, iset e: DirectoryEntry | Stampable(e)
      ensures Valid()
      ensures r == DataForTitle(index.data, index.header, index.unxz, false, title)
    {
      var entry :- index.BinarySearchByTitle(title, false);
      r := index.GetData(entry);
    }

    /** getDataForSpecialUrl: the content of the metadata entry url, found
        by the scan from the end of the URL table. */
    method GetDataForSpecialUrl(url: string) returns (r: Result<Option<seq<byte>>, Exception>)
      requires Valid()
      modifies index, index.stream
      ensures Valid()
      ensures r == SpecialData(index.data, index.header, index.unxz, false, url)
    {
      var entry :- index.EntryFromEnd(url);
      r := index.GetData(entry);
    }
  }
}
