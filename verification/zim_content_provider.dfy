/** ZimContentProvider.getFilePath: the path inside the archive that an
    article URI names, which is the URI after the provider's content URI,
    without its fragment. The provider's other members (openFile, getType,
    the transfer thread) are Android plumbing and are not part of this
    model. */
module ContentProvider {
  import opened JavaStrings

  /** indexOf("#") finds the first '#', and -1 only when there is none. */
  lemma FirstHash(path: string)
    ensures IndexOf(path, "#") == -1 <==> '#' !in path
    ensures IndexOf(path, "#") != -1 ==>
      var pos := IndexOf(path, "#"); pos < |path| && path[pos] == '#' && '#' !in path[..pos]
  {
    var pos := IndexOf(path, "#");
    forall k | 0 <= k < |path| && path[k] == '#'
      ensures OccursAt(path, "#", k)
    {
      assert path[k..k + 1] == [path[k]];
    }
    if pos != -1 {
      assert path[pos..pos + 1] == "#";
      assert path[pos] == '#';
    }
  }

  /** The string up to its first '#', or all of it when it has none. */
  function CutFragment(path: string): (r: string)
    ensures '#' !in r
    ensures r <= path
    ensures '#' in path ==> |r| < |path| && path[|r|] == '#'
    ensures '#' !in path ==> r == path
  {
    var pos := IndexOf(path, "#");
    FirstHash(path);
    if pos != -1 then path[..pos] else path
  }

  /** getFilePath(articleUri) with contentUri for getContentUri(): when the
      content URI occurs anywhere in the URI, as many characters as it has
      are dropped from the front; then the fragment goes. */
  function FilePath(uri: string, contentUri: string): (r: string)
    ensures '#' !in r
    ensures |r| <= |uri|
  {
    var path := if IndexOf(uri, contentUri) != -1 then uri[|contentUri|..] else uri;
    CutFragment(path)
  }

  /** Without the content URI in it, the URI keeps its front: the result is
      the URI up to its first '#'. */
  lemma NoContentUri(uri: string, contentUri: string)
    requires forall k :: !OccursAt(uri, contentUri, k)
    ensures FilePath(uri, contentUri) <= uri
    ensures '#' in uri ==> uri[|FilePath(uri, contentUri)|] == '#'
    ensures '#' !in uri ==> FilePath(uri, contentUri) == uri
  {
  }

  /** The URI the provider hands out for a path without a fragment is read
      back as that path. */
  lemma ContentUriRoundTrip(contentUri: string, p: string)
    requires '#' !in p
    ensures FilePath(contentUri + p, contentUri) == p
  {
    var uri := contentUri + p;
    assert OccursAt(uri, contentUri, 0) by {
      assert uri[..|contentUri|] == contentUri;
    }
    assert uri[|contentUri|..] == p;
  }

  /** The content URI need not be at the front: wherever it occurs, the
      first |contentUri| characters are dropped, whatever they are. */
  lemma DropsFrontWherever(q: string, contentUri: string, p: string)
    requires '#' !in q + contentUri + p
    ensures FilePath(q + contentUri + p, contentUri) == (q + contentUri + p)[|contentUri|..]
  {
    var uri := q + contentUri + p;
    assert OccursAt(uri, contentUri, |q|) by {
      assert uri[|q|..|q| + |contentUri|] == contentUri;
    }
    assert IndexOf(uri, contentUri) != -1;
    assert forall c :: c in uri[|contentUri|..] ==> c in uri;
  }

  /** Cutting the fragment once is enough: a second cut changes nothing. */
  lemma CutFragmentIdempotent(path: string)
    ensures CutFragment(CutFragment(path)) == CutFragment(path)
  {
  }
}
