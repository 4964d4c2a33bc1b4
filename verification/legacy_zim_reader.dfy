/** ZIMReader: the older reader, built on ZIMFile. Its lookups are those
    of ZimReader with these differences: a missing metadata entry is a
    NullPointerException rather than "", the description has no
    "Subtitle" fallback, there is no main page lookup, the normalised
    title is searched as given, the prefix search compares the prefix with
    the lower-cased title, and getData reports a bad blob number as an
    IllegalArgumentException and decompresses with a 4000000 memory
    limit. */
module LegacyZimReaders {
  import opened Wrappers
  import opened Exceptions
  import opened Bytes
  import opened LegacyZimFile
  import opened DirectoryEntries
  import opened Util
  import opened ReaderSpec
  import opened DirectoryLookup
  import opened ArticleRanges
  import opened PrefixSearch

  class LegacyZimReader {
    /** The lookups over the file, with the stream and the caches. */
    const index: DirectoryIndex
    /** firstArticleTitleIndex and lastArticleTitleIndex. */
    const range: ArticleRange
    /** zimTitle and zimDescription; None is Java's null, not read yet. */
    var zimTitle: Option<string>
    var zimDescription: Option<string>

    /** The index reads this archive as a legacy file and the bounds are
        those of its directory. */
    ghost predicate Valid()
      reads this, index, index.Entries, range
    {
      && index.Valid() && index.legacy
      && index.D == Dir(index.data, index.header)
      && range.index == index && range.Valid()
    }

    /** A remembered title or description is the archive's. Only the two
        metadata methods change these fields. */
    ghost predicate Remembered()
      reads this
    {
      && (zimTitle.Some? ==> LegacyMetadata(index.data, index.header, index.unxz, "Title") == Success(zimTitle.value))
      && (zimDescription.Some? ==> LegacyMetadata(index.data, index.header, index.unxz, "Description") == Success(zimDescription.value))
    }

    /** ZIMReader(ZIMFile): a reader over the file's bytes and header, with
        empty caches and nothing remembered. unxz stands for the XZ
        decompressor. */
    constructor (file: LegacyZimFile, unxz: (seq<byte>, int) -> seq<byte>)
      ensures index.data == file.data && index.header == file.header && index.unxz == unxz
      ensures zimTitle.None? && zimDescription.None?
      ensures Valid() && Remembered()
    {
      var lookups := new DirectoryIndex(file.data, file.header, true, unxz);
      index := lookups;
      range := new ArticleRange(lookups);
      zimTitle := None;
      zimDescription := None;
    }

    /** getZimTitle: the remembered title, or the "Title" metadata as text,
        remembered; without that entry a NullPointerException. */
    method GetZimTitle() returns (r: Result<string, Exception>)
      requires Valid() && Remembered()
      modifies this, index, index.stream
      ensures Valid() && Remembered()
      ensures r == LegacyMetadata(index.data, index.header, index.unxz, "Title")
      ensures zimTitle == if r.Success? then Some(r.value) else old(zimTitle)
      ensures unchanged(this`zimDescription)
    {
      if zimTitle.Some? {
        return Success(zimTitle.value);
      }
      var stream :- GetDataForSpecialUrl("Title");
      if stream.None? {
        return Failure(NullPointerException);
      }
      zimTitle := Some(Text(stream.value));
      r := Success(zimTitle.value);
    }

    /** getZimDescription: the remembered description, or the
        "Description" metadata as text, remembered; without that entry a
        NullPointerException. */
    method GetZimDescription() returns (r: Result<string, Exception>)
      requires Valid() && Remembered()
      modifies this, index, index.stream
      ensures Valid() && Remembered()
      ensures r == LegacyMetadata(index.data, index.header, index.unxz, "Description")
      ensures zimDescription == if r.Success? then Some(r.value) else old(zimDescription)
      ensures unchanged(this`zimTitle)
    {
      if zimDescription.Some? {
        return Success(zimDescription.value);
      }
      var stream :- GetDataForSpecialUrl("Description");
      if stream.None? {
        return Failure(NullPointerException);
      }
      zimDescription := Some(Text(stream.value));
      r := Success(zimDescription.value);
    }

    /** getRandomTitle: the title, after its redirects, at first +
        nextInt(last - first) between the article bounds; pick stands for
        the generator's draw. */
    method GetRandomTitle(pick: nat) returns (r: Result<string, Exception>)
      requires Valid()
      modifies index, index.stream, range, iset e: DirectoryEntry | Stampable(e)
      ensures Valid()
      ensures r == RandomTitle(index.data, index.header, pick)
    {
      var first :- range.FirstArticleTitleIndex();
      var last :- range.LastArticleTitleIndex();
      var position :- RandomPosition(first, last, pick);
      var entry :- index.EntryAtTitlePosition(position);
      var article :- index.ResolveRedirect(entry);
      r := Success(article.record.title);
    }

    /** searchByPrefix: the prefix with its first character upper-cased,
        the closest title search for it, then the scan from the title
        position of the entry it answers (0 if negative), which keeps the
        titles whose lower-cased form starts with that prefix; no entry
        gives no titles. start is the position the entry was last read
        at. */
    method SearchByPrefix(prefix: string, maxResults: int) returns (r: Result<seq<string>, Exception>, ghost start: int)
      requires Valid()
      modifies index, index.stream, iset e: DirectoryEntry | Stampable(e)
      ensures Valid()
      ensures var s := SearchAll(index.D, TitleTable, Capitalize(prefix), true);
        && (s.Failure? ==> r == Failure(s.error))
        && (s == Success(None) ==> r == Success([]))
        && (s.Success? && s.value.Some? ==>
              && index.D.title(start) == Success(s.value.value)
              && r == PrefixScan(index.D, Capitalize(prefix), true, Max(start, 0), maxResults))
    {
      start := 0;
      var key := Capitalize(prefix);
      var entry :- index.BinarySearchByTitle(key, true);
      if entry == null {
        return Success([]), start;
      }
      var position := entry.titleListIndex;
      start := position;
      if position < 0 {
        position := 0;
      }
      r := ScanTitles(index, key, true, position, maxResults);
    }

    /** getNormalizedTitle: the title, after its redirects, of the entry
        the exact search for the title as given finds; none is a
        NullPointerException. */
    method GetNormalizedTitle(title: string) returns (r: Result<string, Exception>)
      requires Valid()
      modifies index, index.stream, iset e: DirectoryEntry | Stampable(e)
      ensures Valid()
      ensures r == NormalizedTitle(index.data, index.header, true, title)
    {
      var entry :- index.BinarySearchByTitle(title, false);
      if entry == null {
        return Failure(NullPointerException);
      }
      var article :- index.ResolveRedirect(entry);
      r := Success(article.record.title);
    }

    /** getDataForUrl: the content of the entry with exactly that URL. */
    method GetDataForUrl(url: string) returns (r: Result<Option<seq<byte>>, Exception>)
      requires Valid()
      modifies index, index.stream, iset e: DirectoryEntry | Stampable(e)
      ensures Valid()
      ensures r == DataForUrl(index.data, index.header, index.unxz, true, url)
    {
      var entry :- index.BinarySearchByUrl(url, false);
      r := index.GetData(entry);
    }

    /** getDataForTitle: the content of the entry with exactly that title. */
    method GetDataForTitle(title: string) returns (r: Result<Option<seq<byte>>, Exception>)
      requires Valid()
      modifies index, index.stream, iset e: DirectoryEntry | Stampable(e)
      ensures Valid()
      ensures r == DataForTitle(index.data, index.header, index.unxz, true, title)
    {
      var entry :- index.BinarySearchByTitle(title, false);
      r := index.GetData(entry);
    }

    /** getDataForSpecialUrl: the content of the metadata entry url, found
        by the scan from the end of the URL table. */
    method GetDataForSpecialUrl(url: string) returns (r: Result<Option<seq<byte>>, Exception>)
      requires Valid()
      modifies index, index.stream
      ensures Valid()
      ensures r == SpecialData(index.data, index.header, index.unxz, true, url)
    {
      var entry :- index.EntryFromEnd(url);
      r := index.GetData(entry);
    }
  }
}
