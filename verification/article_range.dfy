/** The bounds of the article namespace ('A') in the Title table, which
    getFirstArticleTitleIndex and getLastArticleTitleIndex compute once and
    then remember, and getRandomTitle, which draws between them. Both
    readers carry the same two fields and the same three methods; -1 marks
    a bound not computed yet. */
module ArticleRanges {
  import opened Wrappers
  import opened Exceptions
  import opened Bytes
  import opened DirectoryEntries
  import opened ReaderSpec
  import opened DirectoryLookup

  /** One round of getFirstArticleTitleIndex: the title at i either ends
      the scan or passes it on to i + 1. */
  lemma FirstArticleStep(d: Directory, i: nat)
    requires i < d.count
    ensures d.title(i).Failure? ==> FirstArticle(d, i) == Failure(d.title(i).error)
    ensures d.title(i).Success? && d.title(i).value.namespace == 'A' ==> FirstArticle(d, i) == Success(i)
    ensures d.title(i).Success? && d.title(i).value.namespace != 'A' ==> FirstArticle(d, i) == FirstArticle(d, i + 1)
  {
  }

  /** Past the last title position the scan has found nothing. */
  lemma FirstArticleEnd(d: Directory, i: nat)
    requires i >= d.count
    ensures FirstArticle(d, i) == Success(-1)
  {
  }

  /** The namespace of the entry at a title position. */
  function NamespaceAt(d: Directory, i: int): Result<char, Exception>
  {
    var e :- d.title(i);
    Success(e.namespace)
  }

  /** getLastArticleTitleIndex goes left past a title outside namespace
      'A'. */
  lemma LastArticleLeft(d: Directory, begin: int, end: int, last: int, mid: int, end': int)
    requires begin <= end && mid == begin + (end - begin) / 2 && NamespaceAt(d, mid).Success?
    requires NamespaceAt(d, mid).value != 'A' && end' == mid - 1
    ensures LastArticle(d, begin, end, last) == LastArticle(d, begin, end', mid)
  {
  }

  /** getLastArticleTitleIndex goes right past a title in namespace 'A'. */
  lemma LastArticleRight(d: Directory, begin: int, end: int, last: int, mid: int, begin': int)
    requires begin <= end && mid == begin + (end - begin) / 2 && NamespaceAt(d, mid) == Success('A')
    requires begin' == mid + 1
    ensures LastArticle(d, begin, end, last) == LastArticle(d, begin', end, mid)
  {
  }

  /** A title that cannot be read ends getLastArticleTitleIndex with its
      exception. */
  lemma LastArticleFails(d: Directory, begin: int, end: int, last: int, mid: int)
    requires begin <= end && mid == begin + (end - begin) / 2 && NamespaceAt(d, mid).Failure?
    ensures LastArticle(d, begin, end, last) == Failure(NamespaceAt(d, mid).error)
  {
  }

  /** The loop of getFirstArticleTitleIndex: the Title table from position
      0 on, up to the first entry in namespace 'A'. */
  method ScanFirstArticle(index: DirectoryIndex) returns (r: Result<int, Exception>)
    requires index.Valid()
    modifies index, index.stream, iset e: DirectoryEntry | Stampable(e)
    ensures index.Valid()
    ensures r == FirstArticle(index.D, 0)
  {
    var i := 0;
    while i < index.header.articleCount
      invariant 0 <= i
      invariant index.Valid()
      invariant FirstArticle(index.D, 0) == FirstArticle(index.D, i)
      decreases index.header.articleCount - i
    {
      FirstArticleStep(index.D, i);
      var entry :- index.EntryAtTitlePosition(i);
      if entry.record.namespace == 'A' {
        return Success(i);
      }
      i := i + 1;
    }
    FirstArticleEnd(index.D, i);
    r := Success(-1);
  }

  /** The loop of getLastArticleTitleIndex: a binary search over
      [0, articleCount] that goes left on a title outside namespace 'A' and
      right on one inside it, answering the last position it probed. */
  method ScanLastArticle(index: DirectoryIndex) returns (r: Result<int, Exception>)
    requires index.Valid()
    modifies index, index.stream, iset e: DirectoryEntry | Stampable(e)
    ensures index.Valid()
    ensures r == LastArticleAll(index.D)
  {
    var begin := 0;
    var end := begin + index.header.articleCount;
    var found := 0;
    LastArticleStarts(index.D, end);
    while begin <= end
      invariant index.Valid()
      invariant LastArticleAll(index.D) == LastArticle(index.D, begin, end, found)
      decreases end - begin + 1
    {
      var mid := begin + (end - begin) / 2;
      var probe := NamespaceOf(index, mid);
      if probe.Failure? {
        LastArticleFails(index.D, begin, end, found, mid);
        return Failure(probe.error);
      }
      if probe.value != 'A' {
        var end' := mid - 1;
        LastArticleLeft(index.D, begin, end, found, mid, end');
        end := end';
      } else {
        var begin' := mid + 1;
        LastArticleRight(index.D, begin, end, found, mid, begin');
        begin := begin';
      }
      found := mid;
    }
    r := Success(found);
  }

  /** The namespace of the entry getLastArticleTitleIndex reads at a title
      position. */
  method NamespaceOf(index: DirectoryIndex, i: int) returns (r: Result<char, Exception>)
    requires index.Valid()
    modifies index, index.stream, iset e: DirectoryEntry | Stampable(e)
    ensures index.Valid()
    ensures r == NamespaceAt(index.D, i)
  {
    var entry :- index.EntryAtTitlePosition(i);
    r := Success(entry.record.namespace);
  }

  /** getLastArticleTitleIndex starts over [0, articleCount]. */
  lemma LastArticleStarts(d: Directory, count: int)
    requires d.count == count
    ensures LastArticleAll(d) == LastArticle(d, 0, count, 0)
  {
  }

  class ArticleRange {
    /** The reader's lookups. */
    const index: DirectoryIndex
    var firstArticleTitleIndex: int
    var lastArticleTitleIndex: int

    /** A remembered bound is the bound the directory gives. */
    ghost predicate Valid()
      reads this
    {
      && (firstArticleTitleIndex == -1 || FirstArticle(index.D, 0) == Success(firstArticleTitleIndex))
      && (lastArticleTitleIndex == -1 || LastArticleAll(index.D) == Success(lastArticleTitleIndex))
    }

    /** The field initialisers: both bounds unknown. */
    constructor (index: DirectoryIndex)
      ensures this.index == index
      ensures firstArticleTitleIndex == -1 && lastArticleTitleIndex == -1
      ensures Valid()
    {
      this.index := index;
      firstArticleTitleIndex := -1;
      lastArticleTitleIndex := -1;
    }

    /** getFirstArticleTitleIndex: the remembered bound, or the first title
        position in namespace 'A', remembered once found; -1 when no title
        position is in it. */
    method FirstArticleTitleIndex() returns (r: Result<int, Exception>)
      requires Valid() && index.Valid()
      modifies this, index, index.stream, iset e: DirectoryEntry | Stampable(e)
      ensures Valid() && index.Valid()
      ensures r == FirstArticle(index.D, 0)
      ensures firstArticleTitleIndex == if r.Success? then r.value else old(firstArticleTitleIndex)
      ensures unchanged(this`lastArticleTitleIndex)
    {
      if firstArticleTitleIndex != -1 {
        return Success(firstArticleTitleIndex);
      }
      var first :- ScanFirstArticle(index);
      firstArticleTitleIndex := first;
      r := Success(first);
    }

    /** getLastArticleTitleIndex: the remembered bound, or the last
        position the search of ScanLastArticle probes, remembered. */
    method LastArticleTitleIndex() returns (r: Result<int, Exception>)
      requires Valid() && index.Valid()
      modifies this, index, index.stream, iset e: DirectoryEntry | Stampable(e)
      ensures Valid() && index.Valid()
      ensures r == LastArticleAll(index.D)
      ensures lastArticleTitleIndex == if r.Success? then r.value else old(lastArticleTitleIndex)
      ensures unchanged(this`firstArticleTitleIndex)
    {
      if lastArticleTitleIndex != -1 {
        return Success(lastArticleTitleIndex);
      }
      var last :- ScanLastArticle(index);
      lastArticleTitleIndex := last;
      r := Success(last);
    }
  }
}
