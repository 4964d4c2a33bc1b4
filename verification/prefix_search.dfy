/** The loop of searchByPrefix, which both readers share: from a title
    position on, up to maxResults entries of the Title table, keeping the
    titles that match the prefix and stopping at articleCount. */
module PrefixSearch {
  import opened Wrappers
  import opened Exceptions
  import opened Bytes
  import opened DirectoryEntries
  import opened ReaderSpec
  import opened DirectoryLookup

  /** The titles collected so far in front of what the rest of the scan
      gives; an exception of the rest is the answer. */
  function Glue(found: seq<string>, rest: Result<seq<string>, Exception>): (r: Result<seq<string>, Exception>)
    ensures rest.Failure? ==> r == Failure(rest.error)
    ensures rest.Success? ==> r == Success(found + rest.value)
  {
    var tail :- rest;
    Success(found + tail)
  }

  /** With nothing collected the scan's own answer stands. */
  lemma GlueNothing(rest: Result<seq<string>, Exception>)
    ensures Glue([], rest) == rest
  {
    if rest.Success? {
      assert [] + rest.value == rest.value;
    }
  }

  /** Collecting more titles first is collecting them in one go. */
  lemma GlueTwice(found: seq<string>, here: seq<string>, rest: Result<seq<string>, Exception>)
    ensures Glue(found, Glue(here, rest)) == Glue(found + here, rest)
  {
    if rest.Success? {
      assert found + (here + rest.value) == found + here + rest.value;
    }
  }

  /** One round of the loop at position index with n rounds left. */
  lemma PrefixScanStep(d: Directory, prefix: string, legacy: bool, index: int, n: int, index': int, n': int)
    requires n > 0 && index' == index + 1 && n' == n - 1
    ensures d.title(index).Failure? ==> PrefixScan(d, prefix, legacy, index, n) == Failure(d.title(index).error)
    ensures d.title(index).Success? && index' >= d.count ==>
      PrefixScan(d, prefix, legacy, index, n) == Success(Here(d.title(index).value.title, prefix, legacy))
    ensures d.title(index).Success? && index' < d.count ==>
      PrefixScan(d, prefix, legacy, index, n)
        == Glue(Here(d.title(index).value.title, prefix, legacy), PrefixScan(d, prefix, legacy, index', n'))
  {
  }

  /** The title, if it matches. */
  function Here(title: string, prefix: string, legacy: bool): (r: seq<string>)
    ensures r == [] || r == [title]
    ensures r == [title] <==> PrefixMatch(title, prefix, legacy)
  {
    if PrefixMatch(title, prefix, legacy) then [title] else []
  }

  /** The end of the window of title positions the loop reads from index
      with n rounds: none for n <= 0; otherwise index itself and then on
      up to n positions, stopping before articleCount. */
  function WindowEnd(count: int, index: int, n: int): (r: int)
    ensures n <= 0 ==> r == index
    ensures n > 0 ==> index < r <= index + n
    ensures n > 0 && index < count ==> r <= count
  {
    if n <= 0 then index else Max(Min(index + n, count), index + 1)
  }

  /** Every title position in [lo, hi) holds a readable entry. */
  ghost predicate Readable(d: Directory, lo: int, hi: int)
  {
    forall i :: lo <= i < hi ==> d.title(i).Success?
  }

  /** The titles at positions lo to hi - 1, in Title-table order. */
  ghost function TitlesIn(d: Directory, lo: int, hi: int): (r: seq<string>)
    requires Readable(d, lo, hi)
    ensures |r| == Max(hi - lo, 0)
    ensures forall j :: 0 <= j < |r| ==> r[j] == d.title(lo + j).value.title
    decreases hi - lo
  {
    if lo >= hi then [] else [d.title(lo).value.title] + TitlesIn(d, lo + 1, hi)
  }

  /** The titles of ts that match the prefix, in their order. */
  function Matching(ts: seq<string>, prefix: string, legacy: bool): (r: seq<string>)
    ensures forall t :: t in r ==> t in ts && PrefixMatch(t, prefix, legacy)
    ensures forall t :: t in ts && PrefixMatch(t, prefix, legacy) ==> t in r
  {
    if ts == [] then [] else Here(ts[0], prefix, legacy) + Matching(ts[1..], prefix, legacy)
  }

  /** The window from index is index followed by the window from
      index + 1 while the loop goes on past index. */
  lemma WindowStep(count: int, index: int, n: int, index': int, n': int)
    requires n > 0 && index' == index + 1 && n' == n - 1 && index' < count
    ensures WindowEnd(count, index, n) == if n' <= 0 then index' else WindowEnd(count, index', n')
  {
  }

  /** Readable windows and their titles, one position at a time. */
  lemma TitlesCons(d: Directory, index: int, index': int, end: int, t: string)
    requires index' == index + 1 && d.title(index).Success? && d.title(index).value.title == t
    requires index' <= end
    ensures Readable(d, index, end) <==> Readable(d, index', end)
    ensures Readable(d, index, end) ==> TitlesIn(d, index, end) == [t] + TitlesIn(d, index', end)
  {
  }

  /** Matching over a first title and the rest. */
  lemma MatchingCons(t: string, ts: seq<string>, prefix: string, legacy: bool)
    ensures Matching([t] + ts, prefix, legacy) == Here(t, prefix, legacy) + Matching(ts, prefix, legacy)
  {
    assert ([t] + ts)[1..] == ts;
  }

  /** What searchByPrefix's loop returns from index with n rounds: it
      fails exactly when some position of its window cannot be read, and
      otherwise gives exactly the matching titles of the window, in order. */
  lemma {:induction false} PrefixScanWindow(d: Directory, prefix: string, legacy: bool, index: int, n: int)
    ensures PrefixScan(d, prefix, legacy, index, n).Success? <==> Readable(d, index, WindowEnd(d.count, index, n))
    ensures PrefixScan(d, prefix, legacy, index, n).Success? ==>
      PrefixScan(d, prefix, legacy, index, n).value
        == Matching(TitlesIn(d, index, WindowEnd(d.count, index, n)), prefix, legacy)
    decreases n
  {
    var end := WindowEnd(d.count, index, n);
    if n > 0 {
      var index', n' := index + 1, n - 1;
      PrefixScanStep(d, prefix, legacy, index, n, index', n');
      if d.title(index).Success? {
        var t := d.title(index).value.title;
        if index' >= d.count {
          assert end == index';
          TitlesCons(d, index, index', end, t);
          MatchingCons(t, [], prefix, legacy);
        } else {
          var end' := WindowEnd(d.count, index', n');
          WindowStep(d.count, index, n, index', n');
          PrefixScanWindow(d, prefix, legacy, index', n');
          assert end == end';
          TitlesCons(d, index, index', end, t);
          if Readable(d, index, end) {
            MatchingCons(t, TitlesIn(d, index', end), prefix, legacy);
          }
        }
      }
    }
  }

  /** Nothing matching is missed: every title of the window that matches
      the prefix is in the loop's answer, and nothing else is. */
  lemma PrefixScanListsEveryMatch(d: Directory, prefix: string, legacy: bool, index: int, n: int)
    requires PrefixScan(d, prefix, legacy, index, n).Success?
    ensures Readable(d, index, WindowEnd(d.count, index, n))
    ensures forall i :: index <= i < WindowEnd(d.count, index, n) && PrefixMatch(d.title(i).value.title, prefix, legacy) ==>
      d.title(i).value.title in PrefixScan(d, prefix, legacy, index, n).value
    ensures forall t :: t in PrefixScan(d, prefix, legacy, index, n).value ==>
      exists i :: index <= i < WindowEnd(d.count, index, n) && d.title(i).value.title == t
  {
    var r := PrefixScan(d, prefix, legacy, index, n).value;
    var end := WindowEnd(d.count, index, n);
    PrefixScanWindow(d, prefix, legacy, index, n);
    var ts := TitlesIn(d, index, end);
    forall i | index <= i < end && PrefixMatch(d.title(i).value.title, prefix, legacy)
      ensures d.title(i).value.title in r
    {
      assert ts[i - index] == d.title(i).value.title;
    }
    forall t | t in r
      ensures exists i :: index <= i < end && d.title(i).value.title == t
    {
      var j :| 0 <= j < |ts| && ts[j] == t;
      assert d.title(index + j).value.title == t;
    }
  }

  /** searchByPrefix's loop from title position start: at most maxResults
      rounds, each reading the entry at the next title position and
      keeping its title when it matches; the loop stops once the position
      reaches articleCount, and an entry that cannot be read ends it with
      that exception. */
  method ScanTitles(index: DirectoryIndex, prefix: string, legacy: bool, start: int, maxResults: int)
    returns (r: Result<seq<string>, Exception>)
    requires index.Valid()
    modifies index, index.stream, iset e: DirectoryEntry | Stampable(e)
    ensures index.Valid()
    ensures r == PrefixScan(index.D, prefix, legacy, start, maxResults)
  {
    var results: seq<string> := [];
    var position := start;
    var i := 0;
    ghost var n := maxResults;
    GlueNothing(PrefixScan(index.D, prefix, legacy, position, n));
    while i < maxResults
      invariant index.Valid()
      invariant n == maxResults - i
      invariant PrefixScan(index.D, prefix, legacy, start, maxResults)
        == Glue(results, PrefixScan(index.D, prefix, legacy, position, n))
      decreases maxResults - i
    {
      var position' := position + 1;
      ghost var n' := n - 1;
      PrefixScanStep(index.D, prefix, legacy, position, n, position', n');
      var entry :- index.EntryAtTitlePosition(position);
      var here := Here(entry.record.title, prefix, legacy);
      GlueTwice(results, here, PrefixScan(index.D, prefix, legacy, position', n'));
      results := results + here;
      position := position';
      if position >= index.header.articleCount {
        return Success(results);
      }
      i := i + 1;
      n := n';
    }
    assert PrefixScan(index.D, prefix, legacy, position, n) == Success([]);
    assert results + [] == results;
    r := Success(results);
  }
}
