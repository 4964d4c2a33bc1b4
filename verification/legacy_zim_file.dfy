/** The legacy ZIMFile header reader. It reads the same fields in the same
    order as ZimFile, but swallows every exception, so a file that is too
    short or has a wrong magic number leaves the fields it did not reach at
    their defaults. It reads the MIME strings one character at a time, and
    its loop never ends when the file runs out before a NUL byte; the model
    reports that case as StreamExhausted instead of running forever. */
module LegacyZimFile {
  import opened Wrappers
  import opened Exceptions
  import opened Bytes
  import opened Streams
  import opened ZimFile

  /** The int field at p, or 0 when the file ends before its last byte. */
  function Int32Or0(data: seq<byte>, p: nat): (r: int)
    ensures IsInt32(r)
    ensures p + 4 > |data| ==> r == 0
  {
    if p + 4 <= |data| then Int32At(data, p) else 0
  }

  /** The long field at p, or 0 when the file ends before its last byte. */
  function Int64Or0(data: seq<byte>, p: nat): (r: int)
    ensures IsInt64(r)
    ensures p + 8 > |data| ==> r == 0
  {
    if p + 8 <= |data| then Int64At(data, p) else 0
  }

  /** The uuid buffer after the read at offset 8: the bytes the file still
      holds there, the rest left at zero. */
  function UuidRead(data: seq<byte>): (r: seq<byte>)
    ensures |r| == UUID_SIZE
  {
    Fill(Zeros(UUID_SIZE), Available(data, 8, UUID_SIZE))
  }

  /** The fixed fields as the legacy reader leaves them. Past a wrong magic
      number nothing is read; otherwise each field holds its value when the
      file reaches its last byte and the default 0 when it does not. */
  function LegacyFields(data: seq<byte>): (h: Header)
    ensures h.mimeTypeList == [] && |h.uuid| == UUID_SIZE
    ensures !HasMagic(data) ==> h == DefaultHeader
    ensures HasMagic(data) && |data| >= HEADER_FIELDS_SIZE ==> h == FixedFields(data)
  {
    if !HasMagic(data) then DefaultHeader
    else
      var h := Header(Int32Or0(data, 4), UuidRead(data), Int32Or0(data, 24), Int32Or0(data, 28),
                      Int64Or0(data, 32), Int64Or0(data, 40), Int64Or0(data, 48), Int64Or0(data, 56),
                      Int32Or0(data, 64), Int32Or0(data, 68), []);
      assert |data| >= HEADER_FIELDS_SIZE ==> h.uuid == data[8..24];
      h
  }

  /** The header the legacy ZIMFile.readHeader leaves, or StreamExhausted
      where its MIME loop would never end: at a MIME string with no NUL
      byte before the end of the file. A negative MIME list position makes
      the seek throw, which is swallowed and leaves the list empty. */
  function LegacyHeader(data: seq<byte>): (r: Result<Header, Exception>)
    ensures r.Failure? ==> r.error == StreamExhausted
    ensures !HasMagic(data) ==> r == Success(DefaultHeader)
    ensures |data| < HEADER_FIELDS_SIZE ==> r == Success(LegacyFields(data))
    ensures r.Success? ==> r.value == LegacyFields(data).(mimeTypeList := r.value.mimeTypeList)
  {
    var h := LegacyFields(data);
    if !(HasMagic(data) && |data| >= HEADER_FIELDS_SIZE) || h.mimeListPos < 0 then Success(h)
    else
      match MimeList(data, h.mimeListPos)
      case Success(list) => Success(h.(mimeTypeList := list))
      case Failure(_) => Failure(StreamExhausted)
  }

  /** On every file ZimFile accepts, the legacy reader gives the same header. */
  lemma LegacyAgreesWithZimFile(data: seq<byte>)
    requires ParseHeader(data).Success?
    ensures LegacyHeader(data) == ParseHeader(data)
  {
  }

  /** A file that is not long enough for every field, or whose MIME list
      position is negative, is an error for ZimFile but not for the legacy
      reader. */
  lemma LegacyToleratesTruncation(data: seq<byte>)
    requires HasMagic(data)
    requires |data| < HEADER_FIELDS_SIZE || FixedFields(data).mimeListPos < 0
    ensures ParseHeader(data).Failure?
    ensures LegacyHeader(data).Success?
    ensures LegacyHeader(data).value.mimeTypeList == []
  {
  }

  /** The uuid is not checked for length: it holds the bytes the file has
      from offset 8 on, up to 16, followed by zeros. */
  lemma LegacyUuid(data: seq<byte>)
    requires HasMagic(data) && |data| >= 8
    ensures var k := Min(UUID_SIZE, |data| - 8);
      LegacyFields(data).uuid == data[8..8 + k] + Zeros(UUID_SIZE - k)
  {
    var k := Min(UUID_SIZE, |data| - 8);
    var u := LegacyFields(data).uuid;
    assert forall i :: 0 <= i < k ==> u[i] == data[8 + i];
    assert forall i :: k <= i < UUID_SIZE ==> u[i] == 0;
  }

  /** The inner loop of the legacy MIME loop: characters are appended to a
      buffer until a NUL byte. The Java loop spins for ever on the -1 that
      read() returns at the end of the file; here it stops and reports it
      in exhausted. */
  method ReadLegacyString(reader: ByteStream) returns (mimeBuffer: string, exhausted: bool)
    modifies reader
    ensures exhausted <==> StringAt(reader.data, old(reader.pos)).Failure?
    ensures !exhausted ==>
      mimeBuffer == StringAt(reader.data, old(reader.pos)).value.value &&
      reader.pos == StringAt(reader.data, old(reader.pos)).value.next
  {
    ghost var start := reader.pos;
    var c := reader.Read();
    var len := 0;
    mimeBuffer := [];
    while c != 0
      invariant c == ByteAt(reader.data, start + len)
      invariant c >= 0 ==> reader.pos == start + len + 1
      invariant len > 0 ==> start + len <= |reader.data|
      invariant forall i :: start <= i < start + len ==> reader.data[i] != 0
      invariant len > 0 ==> mimeBuffer == Latin1(reader.data[start..start + len])
      invariant len == 0 ==> mimeBuffer == []
      decreases |reader.data| - (start + len)
    {
      if c < 0 {
        StringAtSpec(reader.data, start);
        return mimeBuffer, true;
      }
      mimeBuffer := mimeBuffer + [c as char];
      c := reader.Read();
      len := len + 1;
    }
    if len == 0 {
      StringAtNul(reader.data, start);
    } else {
      StringAtTerminated(reader.data, start, len);
    }
    exhausted := false;
  }

  /** The outer MIME loop of the legacy readHeader: a string of length 0
      ends the list. At the end of the file it stops with StreamExhausted,
      keeping the strings read so far. */
  method ReadLegacyMimeList(reader: ByteStream) returns (list: seq<string>, o: Outcome<Exception>)
    modifies reader
    ensures MimeList(reader.data, old(reader.pos)).Success? ==>
      o == Pass && list == MimeList(reader.data, old(reader.pos)).value
    ensures MimeList(reader.data, old(reader.pos)).Failure? ==> o == Fail(StreamExhausted)
  {
    list := [];
    assert Prepend(list, MimeList(reader.data, reader.pos)) == MimeList(reader.data, reader.pos) by {
      if MimeList(reader.data, reader.pos).Success? {
        assert [] + MimeList(reader.data, reader.pos).value == MimeList(reader.data, reader.pos).value;
      }
    }
    while true
      invariant MimeList(reader.data, old(reader.pos)) == Prepend(list, MimeList(reader.data, reader.pos))
      decreases Remaining(reader.data, reader.pos)
    {
      var mimeBuffer, exhausted := ReadLegacyString(reader);
      if exhausted {
        return list, Fail(StreamExhausted);
      }
      if |mimeBuffer| == 0 {
        assert list + [] == list;
        return list, Pass;
      }
      ghost var rest := MimeList(reader.data, reader.pos);
      if rest.Success? {
        assert list + ([mimeBuffer] + rest.value) == list + [mimeBuffer] + rest.value;
      }
      list := list + [mimeBuffer];
    }
  }

  /** The legacy ZIMFile. Its fields, held together as one Header value,
      keep whatever readHeader reached before an exception. */
  class LegacyZimFile {
    /** The contents of the archive file. */
    const data: seq<byte>
    var header: Header

    /** The object before its header is read: every field at its default. */
    constructor Init(data: seq<byte>)
      ensures this.data == data && header == DefaultHeader
    {
      this.data := data;
      header := DefaultHeader;
    }

    /** new ZIMFile(path). It never fails; StreamExhausted stands for the
        constructor that would not return. */
    static method Open(data: seq<byte>) returns (f: LegacyZimFile, o: Outcome<Exception>)
      ensures fresh(f) && f.data == data
      ensures LegacyHeader(data).Success? ==> o == Pass && f.header == LegacyHeader(data).value
      ensures LegacyHeader(data).Failure? ==> o == Fail(StreamExhausted)
    {
      f := new LegacyZimFile.Init(data);
      o := f.ReadHeader();
    }

    /** ZIMFile.readHeader. Every exception ends the reading and is
        swallowed. */
    method ReadHeader() returns (o: Outcome<Exception>)
      requires header == DefaultHeader
      modifies this
      ensures LegacyHeader(data).Success? ==> o == Pass && header == LegacyHeader(data).value
      ensures LegacyHeader(data).Failure? ==>
        o == Fail(StreamExhausted) && header.(mimeTypeList := []) == LegacyFields(data)
    {
      var reader := new ByteStream(data, true);
      var complete;
      header, complete := ReadLegacyFields(reader);
      if !complete {
        return Pass;
      }
      var s := reader.Seek(header.mimeListPos);
      if s.Fail? {
        return Pass;
      }
      var list;
      list, o := ReadLegacyMimeList(reader);
      header := header.(mimeTypeList := list);
    }

    /** The fixed fields of ZIMFile.readHeader, in file order, up to the
        first read that fails; complete tells whether all were read. */
    static method ReadLegacyFields(reader: ByteStream) returns (h: Header, complete: bool)
      requires reader.pos == 0
      modifies reader
      ensures h == LegacyFields(reader.data)
      ensures complete <==> HasMagic(reader.data) && |reader.data| >= HEADER_FIELDS_SIZE
      ensures complete ==> reader.pos == HEADER_FIELDS_SIZE
    {
      h, complete := DefaultHeader, false;
      var magic := reader.ReadIntLe();
      if magic.Failure? || magic.value != ZIM_HEADER_MAGIC {
        return;
      }
      var version := reader.ReadIntLe();
      if version.Failure? {
        return;
      }
      var uuid := new byte[UUID_SIZE](_ => 0);
      assert uuid[..] == Zeros(UUID_SIZE);
      var n := reader.ReadInto(uuid, UUID_SIZE);
      h := h.(version := version.value, uuid := uuid[..]);
      var go, ac, cc, up, tp := ReadLegacyTables(reader);
      h := h.(articleCount := ac, clusterCount := cc, urlPtrPos := up, titlePtrPos := tp);
      if !go {
        return;
      }
      var cp, mp, main, layout;
      complete, cp, mp, main, layout := ReadLegacyPages(reader);
      h := h.(clusterPtrPos := cp, mimeListPos := mp, mainPage := main, layoutPage := layout);
    }

    /** Bytes 24 to 48, each field read only when the ones before it were. */
    static method ReadLegacyTables(reader: ByteStream) returns (go: bool, articleCount: int, clusterCount: int, urlPtrPos: int, titlePtrPos: int)
      requires reader.pos == Min(24, |reader.data|)
      modifies reader
      ensures go <==> |reader.data| >= 48
      ensures go ==> reader.pos == 48
      ensures articleCount == Int32Or0(reader.data, 24) && clusterCount == Int32Or0(reader.data, 28)
      ensures urlPtrPos == Int64Or0(reader.data, 32) && titlePtrPos == Int64Or0(reader.data, 40)
    {
      go, articleCount, clusterCount, urlPtrPos, titlePtrPos := false, 0, 0, 0, 0;
      var ac := reader.ReadIntLe();
      if ac.Failure? { return; }
      articleCount := ac.value;
      var cc := reader.ReadIntLe();
      if cc.Failure? { return; }
      clusterCount := cc.value;
      var up := reader.ReadLongLe();
      if up.Failure? { return; }
      urlPtrPos := up.value;
      var tp := reader.ReadLongLe();
      if tp.Failure? { return; }
      go, titlePtrPos := true, tp.value;
    }

    /** Bytes 48 to 72, each field read only when the ones before it were. */
    static method ReadLegacyPages(reader: ByteStream) returns (go: bool, clusterPtrPos: int, mimeListPos: int, mainPage: int, layoutPage: int)
      requires reader.pos == 48
      modifies reader
      ensures go <==> |reader.data| >= 72
      ensures go ==> reader.pos == 72
      ensures clusterPtrPos == Int64Or0(reader.data, 48) && mimeListPos == Int64Or0(reader.data, 56)
      ensures mainPage == Int32Or0(reader.data, 64) && layoutPage == Int32Or0(reader.data, 68)
    {
      go, clusterPtrPos, mimeListPos, mainPage, layoutPage := false, 0, 0, 0, 0;
      var cp := reader.ReadLongLe();
      if cp.Failure? { return; }
      clusterPtrPos := cp.value;
      var mp := reader.ReadLongLe();
      if mp.Failure? { return; }
      mimeListPos := mp.value;
      var main := reader.ReadIntLe();
      if main.Failure? { return; }
      mainPage := main.value;
      var layout := reader.ReadIntLe();
      if layout.Failure? { return; }
      go, layoutPage := true, layout.value;
    }

    /** ZIMFile.getMIMEType. */
    function GetMIMEType(mimeNumber: int): (r: Result<string, Exception>)
      reads this
      ensures r == MimeTypeAt(header, mimeNumber)
    {
      MimeTypeAt(header, mimeNumber)
    }

    /** ZIMFile.getHeaderSize. */
    function GetHeaderSize(): (r: int)
      reads this
      ensures r == header.mimeListPos
    {
      header.mimeListPos
    }
  }
}
