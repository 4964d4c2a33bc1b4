/** Directory entries: an article, stored in a cluster, or a redirect to
    another entry of the URL table. Every field but titleListIndex is
    final, so the final fields are one immutable record and the class adds
    the one field that is set after construction. */
module DirectoryEntries {
  const TYPE_REDIRECT: int := 65535
  const TYPE_LINK_TARGET: int := 65534
  const TYPE_DELETED: int := 65533

  /** RedirectEntry.ENTRY_SIZE: the bytes of a redirect entry before its
      URL and title. */
  const REDIRECT_ENTRY_SIZE: nat := 12

  /** What distinguishes the two subclasses: an ArticleEntry knows where its
      content is, a RedirectEntry which entry it points to. */
  datatype Kind =
    | Article(clusterNumber: int, blobNumber: int)
    | Redirect(redirectIndex: int)

  /** The final fields of DirectoryEntry and of its subclasses. */
  datatype EntryRecord = EntryRecord(
    mimeType: int,
    namespace: char,
    revision: int,
    url: string,
    title: string,
    urlListIndex: int,
    kind: Kind)

  /** A DirectoryEntry object. The record is a const, so no method can
      change the constructor's arguments; only titleListIndex is updated. */
  class DirectoryEntry {
    const record: EntryRecord
    var titleListIndex: int

    /** new ArticleEntry(...) or new RedirectEntry(...): the fields as given,
        titleListIndex at its default 0. */
    constructor (record: EntryRecord)
      ensures this.record == record && titleListIndex == 0
    {
      this.record := record;
      titleListIndex := 0;
    }

    /** setTitleListIndex: changes titleListIndex and nothing else. */
    method SetTitleListIndex(index: int)
      modifies this
      ensures titleListIndex == index
    {
      titleListIndex := index;
    }

    /** toString: the title. */
    function ToString(): (r: string)
      ensures r == record.title
    {
      record.title
    }
  }
}
