/** ZimFile: the archive header, read once when the archive is opened.

    The header is 72 bytes of little-endian fields at fixed offsets (magic,
    version, 16-byte uuid, article and cluster counts, the positions of the
    URL, Title and cluster pointer tables and of the MIME list, the main and
    layout pages), followed at mimeListPos by NUL-terminated MIME type
    strings ending with an empty one. */
module ZimFile {
  import opened Wrappers
  import opened Exceptions
  import opened Bytes
  import opened Streams

  const ZIM_HEADER_MAGIC: int := 0x044D495A
  const UUID_SIZE: nat := 16
  /** The bytes of fixed fields the reader consumes. */
  const HEADER_FIELDS_SIZE: nat := 72

  datatype Header = Header(
    version: int,
    uuid: seq<byte>,
    articleCount: int,
    clusterCount: int,
    urlPtrPos: int,
    titlePtrPos: int,
    clusterPtrPos: int,
    mimeListPos: int,
    mainPage: int,
    layoutPage: int,
    mimeTypeList: seq<string>)

  /** The field values of a freshly created object, before the header is read. */
  const DefaultHeader: Header := Header(0, Zeros(UUID_SIZE), 0, 0, 0, 0, 0, 0, 0, 0, [])

  /** The MIME strings from pos up to, and without, the first empty string. */
  function MimeList(data: seq<byte>, pos: nat): (r: Result<seq<string>, Exception>)
    ensures r.Success? ==> forall i :: 0 <= i < |r.value| ==> r.value[i] != []
    ensures r.Failure? ==> r.error == IOException(READ_FAILED)
    decreases |data| - pos
  {
    var s :- StringAt(data, pos);
    if s.value == [] then Success([])
    else
      var rest :- MimeList(data, s.next);
      Success([s.value] + rest)
  }

  /** The file starts with the ZIM magic number. */
  predicate HasMagic(data: seq<byte>)
  {
    |data| >= 4 && Int32At(data, 0) == ZIM_HEADER_MAGIC
  }

  /** The exception of a file whose fixed fields cannot be read: a wrong
      magic number, or a read that runs past the end. */
  function FieldsError(data: seq<byte>): Exception
  {
    if |data| >= 4 && !HasMagic(data) then IOException(INVALID_ZIM) else IOException(READ_FAILED)
  }

  /** The fixed fields of a header at their offsets, with an empty MIME
      list. */
  function FixedFields(data: seq<byte>): (h: Header)
    requires |data| >= HEADER_FIELDS_SIZE
    ensures h.mimeTypeList == [] && |h.uuid| == UUID_SIZE
  {
    Header(Int32At(data, 4), data[8..24], Int32At(data, 24), Int32At(data, 28),
           Int64At(data, 32), Int64At(data, 40), Int64At(data, 48),
           Int64At(data, 56), Int32At(data, 64), Int32At(data, 68), [])
  }

  /** The loop of ZimFile.readHeader that reads MIME strings until the
      empty one, collecting them in file order. */
  method ReadMimeList(reader: ByteStream) returns (r: Result<seq<string>, Exception>)
    modifies reader
    ensures r == MimeList(reader.data, old(reader.pos))
  {
    var list: seq<string> := [];
    assert Prepend(list, MimeList(reader.data, reader.pos)) == MimeList(reader.data, reader.pos) by {
      if MimeList(reader.data, reader.pos).Success? {
        assert [] + MimeList(reader.data, reader.pos).value == MimeList(reader.data, reader.pos).value;
      }
    }
    while true
      invariant old(reader.pos) <= reader.pos
      invariant MimeList(reader.data, old(reader.pos)) == Prepend(list, MimeList(reader.data, reader.pos))
      decreases Remaining(reader.data, reader.pos)
    {
      var mimeStr := reader.ReadString();
      if mimeStr.Failure? {
        return Failure(mimeStr.error);
      }
      if mimeStr.value == [] {
        assert list + [] == list;
        return Success(list);
      }
      ghost var rest := MimeList(reader.data, reader.pos);
      if rest.Success? {
        assert list + ([mimeStr.value] + rest.value) == list + [mimeStr.value] + rest.value;
      }
      list := list + [mimeStr.value];
    }
  }

  /** A list read so far followed by the outcome of reading the rest. */
  function Prepend(list: seq<string>, rest: Result<seq<string>, Exception>): (r: Result<seq<string>, Exception>)
    ensures r.Success? <==> rest.Success?
  {
    if rest.Success? then Success(list + rest.value) else rest
  }

  /** ZimFile.readHeader. The Java code reads the fields in file order, so
      the first read to run past the end of the file is the one that fails;
      the fixed fields therefore either all lie within the file or the read
      fails with an IOException. */
  function ParseHeader(data: seq<byte>): (r: Result<Header, Exception>)
    ensures r.Success? ==> |data| >= HEADER_FIELDS_SIZE && HasMagic(data)
    ensures r.Success? ==> r.value == FixedFields(data).(mimeTypeList := r.value.mimeTypeList)
    ensures r.Success? ==> r.value.mimeListPos >= 0
    ensures r.Success? ==> MimeList(data, r.value.mimeListPos) == Success(r.value.mimeTypeList)
    ensures |data| >= 4 && !HasMagic(data) ==> r == Failure(IOException(INVALID_ZIM))
    ensures |data| < HEADER_FIELDS_SIZE ==> r.Failure? && r.error.IOException?
  {
    if !(|data| >= HEADER_FIELDS_SIZE && HasMagic(data)) then Failure(FieldsError(data))
    else
      var h := FixedFields(data);
      if h.mimeListPos < 0 then Failure(IllegalArgumentException(BAD_ARGUMENT))
      else
        var mimeTypeList :- MimeList(data, h.mimeListPos);
        Success(h.(mimeTypeList := mimeTypeList))
  }

  /** getMIMEType: the MIME type with the given number, in list order; a
      number outside the list makes List.get throw. */
  function MimeTypeAt(h: Header, mimeNumber: int): (r: Result<string, Exception>)
    ensures r.Success? <==> 0 <= mimeNumber < |h.mimeTypeList|
    ensures r.Success? ==> r.value == h.mimeTypeList[mimeNumber]
    ensures r.Failure? ==> r.error == IndexOutOfBoundsException
  {
    if 0 <= mimeNumber < |h.mimeTypeList| then Success(h.mimeTypeList[mimeNumber])
    else Failure(IndexOutOfBoundsException)
  }

  /** A zero-length file is rejected with an IOException. */
  lemma EmptyFileRejected()
    ensures ParseHeader([]).Failure? && ParseHeader([]).error == IOException(READ_FAILED)
  {
  }

  /** The NUL-terminated encoding of a MIME list, ending with the empty string. */
  function EncodeMimeList(l: seq<string>): (r: seq<byte>)
    requires MimeNamesOk(l)
  {
    if l == [] then [0] else Latin1Bytes(l[0]) + [0] + EncodeMimeList(l[1..])
  }

  /** MIME names a file can hold: non-empty, one byte per character and
      free of NUL. */
  predicate MimeNamesOk(l: seq<string>)
  {
    forall i :: 0 <= i < |l| ==> l[i] != [] && IsLatin1(l[i]) && forall k :: 0 <= k < |l[i]| ==> l[i][k] != 0 as char
  }

  /** A header a file can hold: every field fits its width and the MIME
      list lies after the fixed fields. */
  predicate Encodable(h: Header)
  {
    && IsInt32(h.version) && |h.uuid| == UUID_SIZE
    && IsInt32(h.articleCount) && IsInt32(h.clusterCount)
    && IsInt64(h.urlPtrPos) && IsInt64(h.titlePtrPos) && IsInt64(h.clusterPtrPos)
    && HEADER_FIELDS_SIZE <= h.mimeListPos < TWO_63
    && IsInt32(h.mainPage) && IsInt32(h.layoutPage)
    && MimeNamesOk(h.mimeTypeList)
  }

  function EncodeFields(h: Header): (r: seq<byte>)
    requires Encodable(h)
    ensures |r| == HEADER_FIELDS_SIZE
  {
    EncodeInt32(ZIM_HEADER_MAGIC) + EncodeInt32(h.version) + h.uuid
    + EncodeInt32(h.articleCount) + EncodeInt32(h.clusterCount)
    + EncodeInt64(h.urlPtrPos) + EncodeInt64(h.titlePtrPos)
    + EncodeInt64(h.clusterPtrPos) + EncodeInt64(h.mimeListPos)
    + EncodeInt32(h.mainPage) + EncodeInt32(h.layoutPage)
  }

  /** The start of an archive holding header h. */
  function EncodeHeader(h: Header): (r: seq<byte>)
    requires Encodable(h)
  {
    EncodeFields(h) + Zeros(h.mimeListPos - HEADER_FIELDS_SIZE)
    + EncodeMimeList(h.mimeTypeList)
  }

  /** A NUL-free string written with its terminator reads back whole. */
  lemma StringRoundTrip(pre: seq<byte>, s: string, rest: seq<byte>)
    requires IsLatin1(s) && forall k :: 0 <= k < |s| ==> s[k] != 0 as char
    ensures StringAt(pre + Latin1Bytes(s) + [0] + rest, |pre|) == Success(Read(s, |pre| + |s| + 1))
  {
    var b := Latin1Bytes(s);
    var d := pre + b + [0] + rest;
    forall i | |pre| <= i < |pre| + |b|
      ensures d[i] != 0
    {
      assert d[i] == b[i - |pre|];
      assert Latin1(b)[i - |pre|] == s[i - |pre|];
    }
    assert d[|pre| + |b|] == 0;
    StringAtTerminated(d, |pre|, |b|);
    assert d[|pre|..|pre| + |b|] == b;
  }

  /** A non-empty string read at pos followed by a list read after it
      makes that string the head of the list read at pos. */
  lemma MimeListCons(d: seq<byte>, pos: nat, s: string, next: nat, tail: seq<string>)
    requires StringAt(d, pos) == Success(Read(s, next)) && s != []
    requires MimeList(d, next) == Success(tail)
    ensures MimeList(d, pos) == Success([s] + tail)
  {
  }

  /** An encoded list is its first name, its NUL, and the encoding of the
      remaining names. */
  lemma EncodeMimeListCons(pre: seq<byte>, l: seq<string>, rest: seq<byte>)
    requires MimeNamesOk(l) && l != []
    ensures MimeNamesOk(l[1..])
    ensures pre + EncodeMimeList(l) + rest == pre + Latin1Bytes(l[0]) + [0] + (EncodeMimeList(l[1..]) + rest)
    ensures pre + EncodeMimeList(l) + rest == (pre + Latin1Bytes(l[0]) + [0]) + EncodeMimeList(l[1..]) + rest
  {
    assert MimeNamesOk(l[1..]) by {
      forall i | 0 <= i < |l[1..]| ensures l[1..][i] == l[i + 1] { }
    }
  }

  /** Reading an encoded MIME list gives the list back, whatever precedes
      and follows it. */
  lemma {:induction false} MimeListRoundTrip(pre: seq<byte>, l: seq<string>, rest: seq<byte>)
    requires MimeNamesOk(l)
    ensures MimeList(pre + EncodeMimeList(l) + rest, |pre|) == Success(l)
    decreases |l|
  {
    var d := pre + EncodeMimeList(l) + rest;
    if l == [] {
      StringRoundTrip(pre, [], rest);
      assert d == pre + Latin1Bytes([]) + [0] + rest;
    } else {
      var name, names := l[0], l[1..];
      var pre' := pre + Latin1Bytes(name) + [0];
      EncodeMimeListCons(pre, l, rest);
      assert IsLatin1(name) && forall k :: 0 <= k < |name| ==> name[k] != 0 as char;
      StringRoundTrip(pre, name, EncodeMimeList(names) + rest);
      MimeListRoundTrip(pre', names, rest);
      assert |pre'| == |pre| + |name| + 1;
      MimeListCons(d, |pre|, name, |pre'|, names);
      assert [name] + names == l;
    }
  }

  /** The fixed fields of an encoded header decode to the header's values. */
  lemma FixedFieldsRoundTrip(h: Header, tail: seq<byte>)
    requires Encodable(h)
    ensures var d := EncodeFields(h) + tail;
      HasMagic(d) && FixedFields(d) == h.(mimeTypeList := [])
  {
    var d := EncodeFields(h) + tail;
    var p0 := EncodeInt32(ZIM_HEADER_MAGIC);
    var p1 := p0 + EncodeInt32(h.version);
    var p2 := p1 + h.uuid;
    var p3 := p2 + EncodeInt32(h.articleCount);
    var p4 := p3 + EncodeInt32(h.clusterCount);
    var p5 := p4 + EncodeInt64(h.urlPtrPos);
    var p6 := p5 + EncodeInt64(h.titlePtrPos);
    var p7 := p6 + EncodeInt64(h.clusterPtrPos);
    var p8 := p7 + EncodeInt64(h.mimeListPos);
    var p9 := p8 + EncodeInt32(h.mainPage);
    var p10 := p9 + EncodeInt32(h.layoutPage);
    assert d == p10 + tail;
    assert d[0..4] == EncodeInt32(ZIM_HEADER_MAGIC) by { assert d[0..4] == p1[0..4]; }
    assert d[4..8] == EncodeInt32(h.version) by { assert d[4..8] == p1[4..8]; }
    assert d[8..24] == h.uuid by { assert d[8..24] == p2[8..24]; }
    assert d[24..28] == EncodeInt32(h.articleCount) by { assert d[24..28] == p3[24..28]; }
    assert d[28..32] == EncodeInt32(h.clusterCount) by { assert d[28..32] == p4[28..32]; }
    assert d[32..40] == EncodeInt64(h.urlPtrPos) by { assert d[32..40] == p5[32..40]; }
    assert d[40..48] == EncodeInt64(h.titlePtrPos) by { assert d[40..48] == p6[40..48]; }
    assert d[48..56] == EncodeInt64(h.clusterPtrPos) by { assert d[48..56] == p7[48..56]; }
    assert d[56..64] == EncodeInt64(h.mimeListPos) by { assert d[56..64] == p8[56..64]; }
    assert d[64..68] == EncodeInt32(h.mainPage) by { assert d[64..68] == p9[64..68]; }
    assert d[68..72] == EncodeInt32(h.layoutPage) by { assert d[68..72] == p10[68..72]; }
    Int32AtEncoded(d, 0, ZIM_HEADER_MAGIC);
    Int32AtEncoded(d, 4, h.version);
    Int32AtEncoded(d, 24, h.articleCount);
    Int32AtEncoded(d, 28, h.clusterCount);
    Int64AtEncoded(d, 32, h.urlPtrPos);
    Int64AtEncoded(d, 40, h.titlePtrPos);
    Int64AtEncoded(d, 48, h.clusterPtrPos);
    Int64AtEncoded(d, 56, h.mimeListPos);
    Int32AtEncoded(d, 64, h.mainPage);
    Int32AtEncoded(d, 68, h.layoutPage);
  }

  /** Reading the header of an encoded archive gives the header back. */
  lemma HeaderRoundTrip(h: Header, rest: seq<byte>)
    requires Encodable(h)
    ensures ParseHeader(EncodeHeader(h) + rest) == Success(h)
  {
    var f := EncodeFields(h);
    var pre := f + Zeros(h.mimeListPos - HEADER_FIELDS_SIZE);
    var d := EncodeHeader(h) + rest;
    assert d == f + (Zeros(h.mimeListPos - HEADER_FIELDS_SIZE) + EncodeMimeList(h.mimeTypeList) + rest);
    FixedFieldsRoundTrip(h, Zeros(h.mimeListPos - HEADER_FIELDS_SIZE) + EncodeMimeList(h.mimeTypeList) + rest);
    assert d == pre + EncodeMimeList(h.mimeTypeList) + rest;
    MimeListRoundTrip(pre, h.mimeTypeList, rest);
  }

  /** An opened archive. ReadHeader sets the header, as the Java
      constructor does, and nothing changes it afterwards. The ten header
      fields and the MIME list of the Java class are held together as one
      Header value. */
  class ZimFile {
    /** The contents of the archive file. */
    const data: seq<byte>
    var header: Header

    /** The object before its header is read: every field at its default. */
    constructor Init(data: seq<byte>)
      ensures this.data == data && header == DefaultHeader
    {
      this.data := data;
      header := DefaultHeader;
    }

    /** new ZimFile(path): the archive with its header read, or the
        exception readHeader throws. */
    static method Open(data: seq<byte>) returns (r: Result<ZimFile, Exception>)
      ensures ParseHeader(data).Failure? ==> r == Failure(ParseHeader(data).error)
      ensures ParseHeader(data).Success? ==>
        r.Success? && fresh(r.value) && r.value.data == data && r.value.header == ParseHeader(data).value
    {
      var f := new ZimFile.Init(data);
      var o := f.ReadHeader();
      if o.Fail? {
        return Failure(o.error);
      }
      r := Success(f);
    }

    /** ZimFile.readHeader: the fields in file order, then the MIME list. */
    method ReadHeader() returns (o: Outcome<Exception>)
      modifies this
      ensures ParseHeader(data).Failure? ==> o == Fail(ParseHeader(data).error)
      ensures ParseHeader(data).Success? ==> o == Pass && header == ParseHeader(data).value
    {
      var reader := new ByteStream(data, true);
      var fields := ReadFields(reader);
      if fields.Failure? {
        return Fail(fields.error);
      }
      header := fields.value;
      o := reader.Seek(header.mimeListPos);
      if o.Fail? {
        return;
      }
      var list := ReadMimeList(reader);
      if list.Failure? {
        return Fail(list.error);
      }
      header := header.(mimeTypeList := list.value);
    }

    /** The fixed fields of ZimFile.readHeader: the magic check and the
        field reads, in file order. */
    static method ReadFields(reader: ByteStream) returns (r: Result<Header, Exception>)
      requires reader.pos == 0
      modifies reader
      ensures r.Success? <==> |reader.data| >= HEADER_FIELDS_SIZE && HasMagic(reader.data)
      ensures r.Failure? ==> r.error == FieldsError(reader.data)
      ensures r.Success? ==> r.value == FixedFields(reader.data) && reader.pos == HEADER_FIELDS_SIZE
    {
      var o, v, id := ReadIdentity(reader);
      if o.Fail? {
        return Failure(o.error);
      }
      var ac, cc, up, tp;
      o, ac, cc, up, tp := ReadTables(reader);
      if o.Fail? {
        return Failure(o.error);
      }
      var cp, mp, main, layout;
      o, cp, mp, main, layout := ReadPages(reader);
      if o.Fail? {
        return Failure(o.error);
      }
      r := Success(Header(v, id, ac, cc, up, tp, cp, mp, main, layout, []));
    }

    /** Bytes 0 to 24: the magic number, the version and the uuid. */
    static method ReadIdentity(reader: ByteStream) returns (o: Outcome<Exception>, version: int, uuid: seq<byte>)
      requires reader.pos == 0
      modifies reader
      ensures o.Pass? <==> |reader.data| >= 24 && HasMagic(reader.data)
      ensures o.Fail? ==> o.error == FieldsError(reader.data)
      ensures o.Pass? ==> reader.pos == 24 && version == Int32At(reader.data, 4) && uuid == reader.data[8..24]
    {
      version, uuid := 0, [];
      var magic := reader.ReadIntLe();
      if magic.Failure? { return Fail(magic.error), version, uuid; }
      if magic.value != ZIM_HEADER_MAGIC {
        return Fail(IOException(INVALID_ZIM)), version, uuid;
      }
      var v := reader.ReadIntLe();
      if v.Failure? { return Fail(v.error), version, uuid; }
      var buf := new byte[UUID_SIZE](_ => 0);
      var n := reader.ReadInto(buf, UUID_SIZE);
      if n != UUID_SIZE {
        return Fail(IOException(READ_FAILED)), version, uuid;
      }
      o, version, uuid := Pass, v.value, buf[..];
    }

    /** Bytes 24 to 48: the article and cluster counts and the positions of
        the URL and Title pointer tables. */
    static method ReadTables(reader: ByteStream) returns (o: Outcome<Exception>, articleCount: int, clusterCount: int, urlPtrPos: int, titlePtrPos: int)
      requires reader.pos == 24
      modifies reader
      ensures o.Pass? <==> |reader.data| >= 48
      ensures o.Fail? ==> o.error == IOException(READ_FAILED)
      ensures o.Pass? ==> reader.pos == 48
      ensures o.Pass? ==> articleCount == Int32At(reader.data, 24) && clusterCount == Int32At(reader.data, 28)
      ensures o.Pass? ==> urlPtrPos == Int64At(reader.data, 32) && titlePtrPos == Int64At(reader.data, 40)
    {
      articleCount, clusterCount, urlPtrPos, titlePtrPos := 0, 0, 0, 0;
      var ac := reader.ReadIntLe();
      if ac.Failure? { return Fail(ac.error), 0, 0, 0, 0; }
      var cc := reader.ReadIntLe();
      if cc.Failure? { return Fail(cc.error), 0, 0, 0, 0; }
      var up := reader.ReadLongLe();
      if up.Failure? { return Fail(up.error), 0, 0, 0, 0; }
      var tp := reader.ReadLongLe();
      if tp.Failure? { return Fail(tp.error), 0, 0, 0, 0; }
      o, articleCount, clusterCount, urlPtrPos, titlePtrPos := Pass, ac.value, cc.value, up.value, tp.value;
    }

    /** Bytes 48 to 72: the positions of the cluster pointer table and the
        MIME list, then the main and layout pages. */
    static method ReadPages(reader: ByteStream) returns (o: Outcome<Exception>, clusterPtrPos: int, mimeListPos: int, mainPage: int, layoutPage: int)
      requires reader.pos == 48
      modifies reader
      ensures o.Pass? <==> |reader.data| >= 72
      ensures o.Fail? ==> o.error == IOException(READ_FAILED)
      ensures o.Pass? ==> reader.pos == 72
      ensures o.Pass? ==> clusterPtrPos == Int64At(reader.data, 48) && mimeListPos == Int64At(reader.data, 56)
      ensures o.Pass? ==> mainPage == Int32At(reader.data, 64) && layoutPage == Int32At(reader.data, 68)
    {
      var cp := reader.ReadLongLe();
      if cp.Failure? { return Fail(cp.error), 0, 0, 0, 0; }
      var mp := reader.ReadLongLe();
      if mp.Failure? { return Fail(mp.error), 0, 0, 0, 0; }
      var main := reader.ReadIntLe();
      if main.Failure? { return Fail(main.error), 0, 0, 0, 0; }
      var layout := reader.ReadIntLe();
      if layout.Failure? { return Fail(layout.error), 0, 0, 0, 0; }
      o, clusterPtrPos, mimeListPos, mainPage, layoutPage := Pass, cp.value, mp.value, main.value, layout.value;
    }

    /** ZimFile.getMIMEType. */
    function GetMIMEType(mimeNumber: int): (r: Result<string, Exception>)
      reads this
      ensures r == MimeTypeAt(header, mimeNumber)
    {
      MimeTypeAt(header, mimeNumber)
    }

    /** ZimFile.getHeaderSize: the position of the MIME list. */
    function GetHeaderSize(): (r: int)
      reads this
      ensures r == header.mimeListPos
    {
      header.mimeListPos
    }
  }
}
