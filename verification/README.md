# zimdroid core in Dafny

A model of the reading core of zimdroid, an Android library that reads ZIM
archives (the offline Wikipedia format). Most of the model is about finding
entries and reading their content:

- **Headers.** `ZimFile` and the older `ZIMFile` read the archive header.
- **Byte cursor.** `ZimInputStream` is the little-endian cursor over the file.
- **Entries.** `DirectoryEntry`, `ArticleEntry` and `RedirectEntry` are the directory entries.
- **Readers.** `ZimReader` and the older `ZIMReader` look up entries. They use:
  - LRU caches;
  - binary searches over the URL and Title pointer tables;
  - a backward scan for metadata;
  - redirect resolution;
  - the article-namespace bounds;
  - the prefix search;
  - blob extraction from stored and XZ-compressed clusters.

Three smaller parts complete the core:

- the dictionary-size check of the vendored `LZMA2Decoder`;
- the URI-to-path stripping of `ZimContentProvider.getFilePath`;
- the helpers of `Util`.

## How the model is built

- **Data.** The archive is an immutable `seq<byte>`.
- **Streams.** `Streams.ByteStream` is a class with a `pos` field. Its read, skip and seek methods are proved against pure functions of `(data, pos)`.
- **Errors.** Java exceptions are values of `Exceptions.Exception`, and every operation that can throw returns a `Result`.
- **Java integers.** `int` and `long` wrap-around is written out with `Bytes.Int32` and `Bytes.Int64` wherever the Java code computes in those types. The main places are the pointer-table arithmetic, the offset arithmetic of `getData`, `first + nextInt(...)` and the LZMA2 shift.
- **Readers.**
  - `ReaderSpec` states every lookup as a function of the archive bytes and header: `Search`, `FromEnd`, `Resolve`, `FirstArticle`, `LastArticle`, `PrefixScan`, `Data` and the metadata functions.
  - The imperative classes do the same lookups step by step:
    - `DirectoryLookup.DirectoryIndex`, with the stream, the two caches and the entry objects;
    - `ArticleRanges.ArticleRange`, with the two remembered bounds;
    - `ZimReaders.ZimReader` and `LegacyZimReaders.LegacyZimReader`, with the remembered title and description.
  - Each method of those classes ensures that its result is the spec function's value, whatever the caches hold. `Valid()` keeps every cached entry equal to the entry read afresh.
- **Headers.** The two header readers are classes whose `ReadHeader` methods are proved against `ParseHeader` and `LegacyHeader`. Round-trip lemmas show that reading an encoded header or directory entry gives it back.
- **Outside dependencies.** These become parameters:
  - the XZ decompressor is `unxz`, a function from compressed bytes and a memory limit to decompressed bytes;
  - the random draw of `getRandomTitle` is `pick`;
  - the provider's content URI is `contentUri`.

## Model

Source paths are relative to the repository root.


| member | source | states |
|---|---|---|
| Bytes.Int32 | src/main/java/com/dmitrybrant/zimdroid/ZimInputStream.java:34-40 | the Java `int` a value wraps to is in range, agrees with the value in its low 32 bits (equal modulo 2^32, two's-complement wrap-around), and is the value itself when already in range |
| Bytes.Int64 | src/main/java/com/dmitrybrant/zimdroid/ZimInputStream.java:43-51 | the Java `long` a value wraps to is in range, agrees with the value in its low 64 bits (equal modulo 2^64, two's-complement wrap-around), and is the value itself when already in range |
| Bytes.JavaDiv | src/main/java/com/dmitrybrant/zimdroid/ZimReader.java:192 | Java's `/` truncates toward zero: floor division for a non-negative dividend, the negated quotient of the magnitude for a negative one |
| Bytes.UIntLe | src/main/java/com/dmitrybrant/zimdroid/ZimInputStream.java:38-39 | the or of shifted unsigned bytes is a value below 256^n |
| Bytes.UIntLeOfEncodeLe | src/main/java/com/dmitrybrant/zimdroid/ZimInputStream.java:38-39 | decoding the little-endian bytes of v gives v back |
| Bytes.EncodeLeOfUIntLe | src/main/java/com/dmitrybrant/zimdroid/ZimInputStream.java:38-39 | encoding the decoded value gives the same bytes back (the layout is a bijection) |
| Bytes.UInt16At | src/main/java/com/dmitrybrant/zimdroid/ZimInputStream.java:26-31 | readShortLe gives an unsigned value below 2^16 |
| Bytes.Int32At | src/main/java/com/dmitrybrant/zimdroid/ZimInputStream.java:34-40 | readIntLe gives a Java `int`, negative exactly when the top byte's high bit is set |
| Bytes.Int64At | src/main/java/com/dmitrybrant/zimdroid/ZimInputStream.java:43-51 | readLongLe gives a Java `long` |
| Bytes.Int16RoundTrip | src/main/java/com/dmitrybrant/zimdroid/ZimInputStream.java:26-31 | a short written at any offset reads back |
| Bytes.Int32RoundTrip | src/main/java/com/dmitrybrant/zimdroid/ZimInputStream.java:34-40 | an `int` written at any offset reads back, negative values included |
| Bytes.Int64RoundTrip | src/main/java/com/dmitrybrant/zimdroid/ZimInputStream.java:43-51 | a `long` written at any offset reads back, negative values included |
| Bytes.Int32Unique | src/main/java/com/dmitrybrant/zimdroid/ZimInputStream.java:34-40 | every four bytes are the encoding of the `int` they decode to |
| Bytes.Latin1 | src/main/java/com/dmitrybrant/zimdroid/ZimInputStream.java:68 | bytes become text one character per byte, keeping each byte's value |
| Streams.Available | src/main/java/com/dmitrybrant/zimdroid/ZimReader.java:214 | a read of up to n bytes delivers min(n, what is left) bytes, exactly the file's bytes there |
| Streams.Fill | src/main/java/com/dmitrybrant/zimdroid/ZimReader.java:223 | a read into a buffer overwrites its first bytes and keeps the rest |
| Streams.ByteAt | src/main/java/com/dmitrybrant/zimdroid/ZimInputStream.java:57-58 | read() gives a byte, or -1 exactly at the end of the stream |
| Streams.SkipCount | src/main/java/com/dmitrybrant/zimdroid/Util.java:18 | skip(n) skips nothing for n <= 0, all n on the file stream, and at most what is left on a decompressing stream |
| Streams.StringAt | src/main/java/com/dmitrybrant/zimdroid/ZimInputStream.java:53-69 | readString ends past the byte it stops at, and its only exception is the short-read IOException |
| Streams.StringAtSpec | src/main/java/com/dmitrybrant/zimdroid/ZimInputStream.java:53-69 | the string read is the bytes before the first NUL after pos; it fails exactly when no NUL follows |
| Streams.StringAtNul | src/main/java/com/dmitrybrant/zimdroid/ZimFile.java:100-103 | at a NUL byte the string read is empty, the sentinel that ends the MIME list |
| Streams.StringAtTerminated | src/main/java/com/dmitrybrant/zimdroid/ZimInputStream.java:61-67 | n non-NUL bytes followed by a NUL read as those n bytes, with the cursor past the NUL |
| Streams.ByteStream.constructor | src/main/java/com/dmitrybrant/zimdroid/ZimInputStream.java:20-23 | a new stream starts at position 0 of its data |
| Streams.ByteStream.Read | src/main/java/com/dmitrybrant/zimdroid/ZimInputStream.java:57 | read() returns ByteAt and moves the cursor past the byte |
| Streams.ByteStream.ReadInto | src/main/java/com/dmitrybrant/zimdroid/ZimReader.java:214 | read(buf, 0, len) copies what is available into the buffer's start, moves the cursor by that much, and returns the count or -1 at the end |
| Streams.ByteStream.Skip | src/main/java/com/dmitrybrant/zimdroid/Util.java:18 | skip moves the cursor by SkipCount |
| Streams.ByteStream.Seek | src/main/java/com/dmitrybrant/zimdroid/ZimInputStream.java:71-75 | seek to a non-negative position sets the cursor there; a negative one is an IllegalArgumentException that leaves it |
| Streams.ByteStream.ReadShortLe | src/main/java/com/dmitrybrant/zimdroid/ZimInputStream.java:26-31 | two bytes as an unsigned short, or the short-read IOException |
| Streams.ByteStream.ReadIntLe | src/main/java/com/dmitrybrant/zimdroid/ZimInputStream.java:34-40 | four bytes as an `int`, or the short-read IOException |
| Streams.ByteStream.ReadLongLe | src/main/java/com/dmitrybrant/zimdroid/ZimInputStream.java:43-51 | eight bytes as a `long`, or the short-read IOException |
| Streams.ByteStream.ReadString | src/main/java/com/dmitrybrant/zimdroid/ZimInputStream.java:53-69 | the byte loop returns StringAt's string and leaves the cursor at StringAt's position, or fails as StringAt does |
| Util.Capitalize | src/main/java/com/dmitrybrant/zimdroid/Util.java:9-14 | same length, first character upper-cased, every other character kept |
| Util.CapitalizeIdempotent | src/main/java/com/dmitrybrant/zimdroid/Util.java:9-14 | capitalising twice is capitalising once |
| Util.CapitalizeFixedPoint | src/main/java/com/dmitrybrant/zimdroid/Util.java:9-14 | a string that does not start with a lower-case letter is unchanged |
| Util.CapitalizeExamples | src/test/java/com/dmitrybrant/zimdroid/UtilTest.java:10-14 | "wikipedia" becomes "Wikipedia", "a" becomes "A", "Z" stays |
| Util.GetIntLe | src/main/java/com/dmitrybrant/zimdroid/Util.java:23-26 | the first four bytes as a Java `int`, negative exactly when the fourth byte's high bit is set |
| Util.GetIntLeRoundTrip | src/main/java/com/dmitrybrant/zimdroid/Util.java:23-26 | getIntLe reads back any encoded `int`, whatever follows it |
| Util.GetIntLeExample | src/test/java/com/dmitrybrant/zimdroid/UtilTest.java:18-21 | AA BB CC DD reads as the negative `int` 0xDDCCBBAA |
| Util.SkipFully | src/main/java/com/dmitrybrant/zimdroid/Util.java:16-20 | succeeds exactly when the skip fits (or the stream can skip past its end) and then moves by max(bytes, 0); otherwise stops at the end with StreamExhausted |
| JavaStrings.CompareToAntisymmetric | src/main/java/com/dmitrybrant/zimdroid/ZimReader.java:313-316 | compareTo with swapped operands is exactly negated |
| JavaStrings.CompareToZero | src/main/java/com/dmitrybrant/zimdroid/ZimReader.java:313-318 | compareTo is 0 exactly for equal strings, so the search's third branch is equality |
| JavaStrings.ToLower | src/main/java/com/dmitrybrant/zimdroid/ZIMReader.java:98 | toLowerCase keeps the length and maps each character |
| JavaStrings.IndexFrom | src/main/java/com/dmitrybrant/zimdroid/ZimContentProvider.java:83 | indexOf from i: an occurrence at or after i with none between, or -1 when there is none |
| JavaStrings.IndexOf | src/main/java/com/dmitrybrant/zimdroid/ZimContentProvider.java:83 | -1 exactly when the string does not occur, otherwise its first occurrence |
| ZimFile.MimeList | src/main/java/com/dmitrybrant/zimdroid/ZimFile.java:98-105 | the MIME list holds only non-empty strings; its only failure is the short-read IOException |
| ZimFile.FixedFields | src/main/java/com/dmitrybrant/zimdroid/ZimFile.java:85-96 | the fixed fields carry a 16-byte uuid and no MIME list yet |
| ZimFile.ReadMimeList | src/main/java/com/dmitrybrant/zimdroid/ZimFile.java:98-105 | the loop collects exactly MimeList from the stream's position |
| ZimFile.ParseHeader | src/main/java/com/dmitrybrant/zimdroid/ZimFile.java:77-110 | a parsed header has the magic, the fixed fields at their offsets, a non-negative MIME position and the MIME list there; a wrong magic is "Invalid ZIM file.", a file shorter than the header an IOException |
| ZimFile.MimeTypeAt | src/main/java/com/dmitrybrant/zimdroid/ZimFile.java:61-63 | getMIMEType succeeds exactly for numbers within the list, giving that entry; others are IndexOutOfBoundsException |
| ZimFile.EmptyFileRejected | src/main/java/com/dmitrybrant/zimdroid/ZimFile.java:81 | an empty file fails with the short-read IOException |
| ZimFile.StringRoundTrip | src/main/java/com/dmitrybrant/zimdroid/ZimInputStream.java:53-69 | a NUL-free string written with its terminator reads back whole |
| ZimFile.MimeListRoundTrip | src/main/java/com/dmitrybrant/zimdroid/ZimFile.java:98-105 | an encoded MIME list reads back, whatever surrounds it |
| ZimFile.FixedFieldsRoundTrip | src/main/java/com/dmitrybrant/zimdroid/ZimFile.java:81-96 | encoded fixed fields carry the magic and decode to the header's values |
| ZimFile.HeaderRoundTrip | src/main/java/com/dmitrybrant/zimdroid/ZimFile.java:77-110 | readHeader on an encoded header gives the header back |
| ZimFile.ZimFile.Init | src/main/java/com/dmitrybrant/zimdroid/ZimFile.java:19-30 | the field initialisers: every header field at its default |
| ZimFile.ZimFile.Open | src/main/java/com/dmitrybrant/zimdroid/ZimFile.java:32-35 | new ZimFile gives a fresh object with ParseHeader's header, or ParseHeader's exception |
| ZimFile.ZimFile.ReadHeader | src/main/java/com/dmitrybrant/zimdroid/ZimFile.java:77-110 | the step-by-step reads set the header to ParseHeader's value or fail with its exception |
| ZimFile.ZimFile.ReadFields | src/main/java/com/dmitrybrant/zimdroid/ZimFile.java:81-96 | the field reads succeed exactly for a file with the magic and 72 bytes, giving FixedFields |
| ZimFile.ZimFile.ReadIdentity | src/main/java/com/dmitrybrant/zimdroid/ZimFile.java:81-88 | magic, version and uuid: success exactly with the magic and 24 bytes |
| ZimFile.ZimFile.ReadTables | src/main/java/com/dmitrybrant/zimdroid/ZimFile.java:89-92 | the counts and table positions at offsets 24 to 48 |
| ZimFile.ZimFile.ReadPages | src/main/java/com/dmitrybrant/zimdroid/ZimFile.java:93-96 | the cluster and MIME positions and the main and layout pages at offsets 48 to 72 |
| ZimFile.ZimFile.GetMIMEType | src/main/java/com/dmitrybrant/zimdroid/ZimFile.java:61-63 | getMIMEType is MimeTypeAt of the header |
| ZimFile.ZimFile.GetHeaderSize | src/main/java/com/dmitrybrant/zimdroid/ZimFile.java:65-67 | getHeaderSize is the MIME list position |
| LegacyZimFile.Int32Or0 | src/main/java/com/dmitrybrant/zimdroid/ZIMFile.java:83-116 | an `int` field the file does not reach keeps its default 0 |
| LegacyZimFile.Int64Or0 | src/main/java/com/dmitrybrant/zimdroid/ZIMFile.java:83-116 | a `long` field the file does not reach keeps its default 0 |
| LegacyZimFile.UuidRead | src/main/java/com/dmitrybrant/zimdroid/ZIMFile.java:89 | the uuid buffer stays 16 bytes long whatever the read delivers |
| LegacyZimFile.LegacyFields | src/main/java/com/dmitrybrant/zimdroid/ZIMFile.java:83-116 | a wrong magic leaves every default; a complete file gives ZimFile's fixed fields |
| LegacyZimFile.LegacyHeader | src/main/java/com/dmitrybrant/zimdroid/ZIMFile.java:77-120 | the only failure is the never-ending MIME loop (StreamExhausted); a wrong magic or short file is swallowed |
| LegacyZimFile.LegacyAgreesWithZimFile | src/main/java/com/dmitrybrant/zimdroid/ZIMFile.java:77-120 | on every file ZimFile accepts, ZIMFile reads the same header |
| LegacyZimFile.LegacyToleratesTruncation | src/main/java/com/dmitrybrant/zimdroid/ZIMFile.java:83-116 | a truncated file or negative MIME position fails ZimFile but not ZIMFile, which leaves the MIME list empty |
| LegacyZimFile.LegacyUuid | src/main/java/com/dmitrybrant/zimdroid/ZIMFile.java:89 | the unchecked uuid read holds what the file has from offset 8, then zeros |
| LegacyZimFile.ReadLegacyString | src/main/java/com/dmitrybrant/zimdroid/ZIMFile.java:101-108 | the character loop reads StringAt's string, and is exhausted exactly where StringAt fails |
| LegacyZimFile.ReadLegacyMimeList | src/main/java/com/dmitrybrant/zimdroid/ZIMFile.java:99-113 | the outer loop gives MimeList, or StreamExhausted where MimeList fails |
| LegacyZimFile.LegacyZimFile.Init | src/main/java/com/dmitrybrant/zimdroid/ZIMFile.java:19-30 | the field initialisers: every header field at its default |
| LegacyZimFile.LegacyZimFile.Open | src/main/java/com/dmitrybrant/zimdroid/ZIMFile.java:32-35 | new ZIMFile always gives a fresh object with LegacyHeader's header |
| LegacyZimFile.LegacyZimFile.ReadHeader | src/main/java/com/dmitrybrant/zimdroid/ZIMFile.java:77-120 | the header becomes LegacyHeader's value; on StreamExhausted the fixed fields are still set |
| LegacyZimFile.LegacyZimFile.ReadLegacyFields | src/main/java/com/dmitrybrant/zimdroid/ZIMFile.java:84-97 | the field reads give LegacyFields and complete exactly for a 72-byte file with the magic |
| LegacyZimFile.LegacyZimFile.ReadLegacyTables | src/main/java/com/dmitrybrant/zimdroid/ZIMFile.java:90-93 | offsets 24 to 48, each field 0 when not reached |
| LegacyZimFile.LegacyZimFile.ReadLegacyPages | src/main/java/com/dmitrybrant/zimdroid/ZIMFile.java:94-97 | offsets 48 to 72, each field 0 when not reached |
| LegacyZimFile.LegacyZimFile.GetMIMEType | src/main/java/com/dmitrybrant/zimdroid/ZIMFile.java:61-63 | getMIMEType is MimeTypeAt of the header |
| LegacyZimFile.LegacyZimFile.GetHeaderSize | src/main/java/com/dmitrybrant/zimdroid/ZIMFile.java:65-67 | getHeaderSize is the MIME list position |
| DirectoryEntries.DirectoryEntry.constructor | src/main/java/com/dmitrybrant/zimdroid/DirectoryEntry.java:17-24 | the final fields as given, titleListIndex at its default 0 |
| DirectoryEntries.DirectoryEntry.SetTitleListIndex | src/main/java/com/dmitrybrant/zimdroid/DirectoryEntry.java:50-52 | sets titleListIndex and changes nothing else |
| DirectoryEntries.DirectoryEntry.ToString | src/main/java/com/dmitrybrant/zimdroid/DirectoryEntry.java:58-60 | toString is the title |
| DirectoryFormat.CharOfRead | src/main/java/com/dmitrybrant/zimdroid/ZimReader.java:387 | `(char) read()` keeps a byte's value and turns -1 into U+FFFF |
| DirectoryFormat.TitleOrUrl | src/main/java/com/dmitrybrant/zimdroid/ZimReader.java:395 | an empty title is replaced by the URL |
| DirectoryFormat.EntryAt | src/main/java/com/dmitrybrant/zimdroid/ZimReader.java:381-405 | an entry read records its URL position, is a redirect exactly for type 65535, and has an empty title only with an empty URL |
| DirectoryFormat.KindAt | src/main/java/com/dmitrybrant/zimdroid/ZimReader.java:391-400 | a redirect reads 4 bytes of target, any other type 8 bytes of cluster and blob |
| DirectoryFormat.ReadEntry | src/main/java/com/dmitrybrant/zimdroid/ZimReader.java:381-405 | the stream reads give exactly EntryAt |
| DirectoryFormat.ReadKind | src/main/java/com/dmitrybrant/zimdroid/ZimReader.java:391-400 | the stream reads give exactly KindAt |
| DirectoryFormat.EntryHeadSize | src/main/java/com/dmitrybrant/zimdroid/RedirectEntry.java:4 | the fixed part of a redirect entry is ENTRY_SIZE (12) bytes, that of an article 16 |
| DirectoryFormat.EntryRoundTrip | src/main/java/com/dmitrybrant/zimdroid/ZimReader.java:381-405 | an encoded entry reads back, whatever surrounds it |
| DirectoryFormat.EntryAtEncoded | src/main/java/com/dmitrybrant/zimdroid/ZimReader.java:381-405 | an encoded entry reads back wherever it lies in the file |
| DirectoryFormat.UrlSlot | src/main/java/com/dmitrybrant/zimdroid/ZimReader.java:378 | the URL slot is a `long` |
| DirectoryFormat.TitleSlot | src/main/java/com/dmitrybrant/zimdroid/ZimReader.java:366 | the Title slot is a `long`; its value is given by TitleSlotArithmetic |
| DirectoryFormat.UrlSlotArithmetic | src/main/java/com/dmitrybrant/zimdroid/ZimReader.java:378 | the slot is urlPtrPos + 8·position below 2^28, and the `int` product wraps at 2^28 |
| DirectoryFormat.TitleSlotArithmetic | src/main/java/com/dmitrybrant/zimdroid/ZimReader.java:366 | the slot is titlePtrPos + 4·position below 2^29, and the `int` product `4 * position` wraps at 2^29 |
| DirectoryFormat.UrlEntry | src/main/java/com/dmitrybrant/zimdroid/ZimReader.java:374-408 | the entry read at a URL position records that position |
| DirectoryFormat.TitleEntryIsUrlEntry | src/main/java/com/dmitrybrant/zimdroid/ZimReader.java:362-372 | the entry at a title position is the URL entry whose position the Title table holds |
| Clusters.Location | src/main/java/com/dmitrybrant/zimdroid/ZimReader.java:202 | the skip to entry b is an `int` |
| Clusters.LeadIn | src/main/java/com/dmitrybrant/zimdroid/ZimReader.java:212 | the lead-in skip is an `int` |
| Clusters.BlobRead | src/main/java/com/dmitrybrant/zimdroid/ZimReader.java:210-215 | the bytes written out have the array's length |
| Clusters.ReadBuffer | src/main/java/com/dmitrybrant/zimdroid/ZimReader.java:222-223 | the reused buffer stays four bytes long |
| Clusters.XzSkip | src/main/java/com/dmitrybrant/zimdroid/ZimReader.java:236 | skipping past the end of the decompressed stream fails only with StreamExhausted |
| Clusters.XzOffset1 | src/main/java/com/dmitrybrant/zimdroid/ZimReader.java:232-239 | the buffer stays four bytes long once offset1 is in it |
| Clusters.OffsetBounds | src/main/java/com/dmitrybrant/zimdroid/ZimReader.java:191-215 | every offset of a well-formed table lies between the table's end and the data's end |
| Clusters.Blob | src/main/java/com/dmitrybrant/zimdroid/ZimReader.java:207-215 | blob b is offset[b+1] - offset[b] bytes long |
| Clusters.TableHead | src/main/java/com/dmitrybrant/zimdroid/ZimReader.java:191-192 | the first read of a table gives offset[0], and firstOffset / 4 is the table's entry count |
| Clusters.EntrySkip | src/main/java/com/dmitrybrant/zimdroid/ZimReader.java:202-203 | from past the first entry, skipping (b - 1)·4 lands on entry b, on either stream |
| Clusters.LeadInSkip | src/main/java/com/dmitrybrant/zimdroid/ZimReader.java:247 | from past offset[b + 1], the lead-in skip lands on the blob |
| Clusters.StoredOffset1Exact | src/main/java/com/dmitrybrant/zimdroid/ZimReader.java:198-205 | stored path: offset1 is offset[b] |
| Clusters.StoredTailExact | src/main/java/com/dmitrybrant/zimdroid/ZimReader.java:207-215 | stored path: from offset1 on, exactly blob b is read |
| Clusters.StoredBlobExact | src/main/java/com/dmitrybrant/zimdroid/ZimReader.java:188-216 | stored path as written: every blob the table holds is read exactly |
| Clusters.StoredBlobSpec | src/main/java/com/dmitrybrant/zimdroid/ZimReader.java:188-216 | stored path as written, on a well-formed table: blob b exactly for 0 <= b < count - 1, tooMany for b >= count |
| Clusters.CheckedStoredBlobSpec | src/main/java/com/dmitrybrant/zimdroid/ZimReader.java:188-216 | stored path, corrected check: success exactly for 0 <= b < count - 1, giving blob b; tooMany otherwise |
| Clusters.StoredBlobAcceptsPastLast | src/main/java/com/dmitrybrant/zimdroid/ZimReader.java:194 | as written, blob 1 of a one-blob cluster passes the check and gives an empty blob |
| Clusters.StoredBlobAcceptsNegative | src/main/java/com/dmitrybrant/zimdroid/ZimReader.java:194-203 | as written, blob -1 of the same cluster passes the check, the negative skip does nothing, and an empty blob is returned; the corrected check rejects it |
| Clusters.XzOffset1Exact | src/main/java/com/dmitrybrant/zimdroid/ZimReader.java:232-239 | LZMA path: the buffer holds offset[b] |
| Clusters.XzTailExact | src/main/java/com/dmitrybrant/zimdroid/ZimReader.java:241-250 | LZMA path: from offset1 on, exactly blob b is read |
| Clusters.XzBlobExact | src/main/java/com/dmitrybrant/zimdroid/ZimReader.java:218-251 | LZMA path as written: every blob the table holds is read exactly |
| Clusters.XzBlobSpec | src/main/java/com/dmitrybrant/zimdroid/ZimReader.java:218-251 | LZMA path as written, on a well-formed table: blob b exactly for 0 <= b < count - 1, tooMany for b >= count |
| Clusters.CheckedXzBlobSpec | src/main/java/com/dmitrybrant/zimdroid/ZimReader.java:218-251 | LZMA path, corrected check: success exactly for 0 <= b < count - 1, giving blob b; tooMany otherwise |
| Clusters.XzBlobAcceptsPastLast | src/main/java/com/dmitrybrant/zimdroid/ZimReader.java:228 | as written, the LZMA path also accepts blob 1 of a one-blob cluster |
| Clusters.XzBlobAcceptsNegative | src/main/java/com/dmitrybrant/zimdroid/ZimReader.java:228-247 | as written, blob -1 passes the LZMA check too and ends in the lead-in skip past the decompressed end; the corrected check rejects it |
| Clusters.ReadStoredBlob | src/main/java/com/dmitrybrant/zimdroid/ZimReader.java:188-216 | the stored case, step by step on the file stream with the check as written, gives StoredBlob |
| Clusters.ReadStoredOffset1 | src/main/java/com/dmitrybrant/zimdroid/ZimReader.java:198-205 | offset1 and the cursor as StoredOffset1 says |
| Clusters.ReadStoredTail | src/main/java/com/dmitrybrant/zimdroid/ZimReader.java:207-215 | offset2, the array, the skip and the read give StoredTail |
| Clusters.ReadXzBlob | src/main/java/com/dmitrybrant/zimdroid/ZimReader.java:218-251 | the LZMA case, step by step on the decompressed stream with the check as written, gives XzBlob |
| Clusters.ReadXzOffset1 | src/main/java/com/dmitrybrant/zimdroid/ZimReader.java:232-239 | the buffer and cursor as XzOffset1 says |
| Clusters.ReadXzTail | src/main/java/com/dmitrybrant/zimdroid/ZimReader.java:241-250 | offset2 read over the buffer, the skip and the read give XzTail |
| Clusters.ReadXzBytes | src/main/java/com/dmitrybrant/zimdroid/ZimReader.java:245-249 | the array of n zero bytes, the lead-in skip over the decompressed stream and the read: StreamExhausted when the skip passes the end, else the n bytes BlobRead gives at the new position |
| ReaderSpec.DirIndexed | src/main/java/com/dmitrybrant/zimdroid/ZimReader.java:396-404 | every entry read at a URL position records that position |
| ReaderSpec.Resolve | src/main/java/com/dmitrybrant/zimdroid/ZimReader.java:410-423 | a resolved entry is never a redirect, and a non-redirect resolves to itself |
| ReaderSpec.ResolveSameUrls | src/main/java/com/dmitrybrant/zimdroid/ZimReader.java:410-423 | resolution depends only on the URL entries: directories that agree on them resolve every entry alike |
| ReaderSpec.ResolveMoreHops | src/main/java/com/dmitrybrant/zimdroid/ZimReader.java:410-423 | more hops never change an answer found with fewer |
| ReaderSpec.ResolveSelfRedirect | src/main/java/com/dmitrybrant/zimdroid/ZimReader.java:410-423 | a redirect to itself ends in "Too many redirects." |
| ReaderSpec.Search | src/main/java/com/dmitrybrant/zimdroid/ZimReader.java:303-343 | an exact search answers only an entry whose key equals the sought one; null only when closest is off or nothing was probed |
| ReaderSpec.SearchStep | src/main/java/com/dmitrybrant/zimdroid/ZimReader.java:307-320 | the middle probe sends the search left, right, or answers it, by compareTo |
| ReaderSpec.SearchEnds | src/main/java/com/dmitrybrant/zimdroid/ZimReader.java:321 | an empty range answers the last probe if closest, else null |
| ReaderSpec.SearchProbeFails | src/main/java/com/dmitrybrant/zimdroid/ZimReader.java:309 | a failed probe ends the search with its exception |
| ReaderSpec.SearchFindsPlaced | src/main/java/com/dmitrybrant/zimdroid/ZimReader.java:303-322 | a key with smaller keys before it and greater after is found, at its own position |
| ReaderSpec.SearchFinds | src/main/java/com/dmitrybrant/zimdroid/ZimReader.java:303-322 | within a sorted range [begin, end] a present key is found, and the entry found is the one at its position |
| ReaderSpec.SearchFindsBelowEnd | src/main/java/com/dmitrybrant/zimdroid/ZimReader.java:303-322 | over [begin, hi + 1], a key placed at k <= hi is found without position hi + 1 mattering |
| ReaderSpec.SearchAllFinds | src/main/java/com/dmitrybrant/zimdroid/ZimReader.java:303-343 | the readers' search over [0, articleCount]: when the articleCount entries are sorted, a present key is found at its position, whatever lies past the table |
| ReaderSpec.SearchPastLast | src/main/java/com/dmitrybrant/zimdroid/ZimReader.java:305 | a key above every key drives the search to probe position articleCount, one past the table, and its failure fails the search |
| ReaderSpec.ScanEnd | src/main/java/com/dmitrybrant/zimdroid/ZimReader.java:350 | the backward scan stops at the first position outside the window and visits every one above it |
| ReaderSpec.FromEnd | src/main/java/com/dmitrybrant/zimdroid/ZimReader.java:345-360 | a found entry has the URL and is the highest such in the window; null means no position in the window has it |
| ReaderSpec.ScanWindow | src/main/java/com/dmitrybrant/zimdroid/ZimReader.java:347-350 | the window is the last 255 positions, never position 0 |
| ReaderSpec.FirstArticle | src/main/java/com/dmitrybrant/zimdroid/ZimReader.java:259-278 | the answer is the first title position in namespace 'A', all before it outside; -1 when none is |
| ReaderSpec.LastArticle | src/main/java/com/dmitrybrant/zimdroid/ZimReader.java:280-301 | the answer lies in the range searched, or is the last probe once the range is empty |
| ReaderSpec.LastArticleBoundary | src/main/java/com/dmitrybrant/zimdroid/ZimReader.java:280-301 | when the articles are positions 0 to last, the search answers last or last + 1 |
| ReaderSpec.Data | src/main/java/com/dmitrybrant/zimdroid/ZimReader.java:163-257 | null for no entry; otherwise content or an exception, never null; the blob is read with the check as written |
| ReaderSpec.DataUnresolved | src/main/java/com/dmitrybrant/zimdroid/ZimReader.java:163-167 | an unresolvable redirect chain fails getData with its exception |
| ReaderSpec.DataOfArticle | src/main/java/com/dmitrybrant/zimdroid/ZimReader.java:163-175 | getData is the content of the article the redirects reach |
| ReaderSpec.ClusterIsStored | src/main/java/com/dmitrybrant/zimdroid/ZimReader.java:172-216 | compression 0 or 1 reads StoredBlob, the as-written stored path, from just past the compression byte |
| ReaderSpec.ClusterIsXz | src/main/java/com/dmitrybrant/zimdroid/ZimReader.java:218-251 | compression 4 reads XzBlob, the as-written LZMA path, over the decompressed bytes with the reader's memory limit |
| ReaderSpec.DataStored | src/main/java/com/dmitrybrant/zimdroid/ZimReader.java:186-216 | with a well-formed stored table, getData gives exactly blob b for 0 <= b < count - 1 and the too-many-blobs exception for b >= count |
| ReaderSpec.DataXz | src/main/java/com/dmitrybrant/zimdroid/ZimReader.java:218-251 | the same for an LZMA cluster's decompressed table |
| ReaderSpec.DataUnknownCompression | src/main/java/com/dmitrybrant/zimdroid/ZimReader.java:253-256 | any other compression byte gives empty content, no error |
| ReaderSpec.MainPageTitle | src/main/java/com/dmitrybrant/zimdroid/ZimReader.java:112-118 | a negative main page is the no-main-page IOException, otherwise the title of its URL entry |
| ReaderSpec.NextInt | src/main/java/com/dmitrybrant/zimdroid/ZimReader.java:107 | nextInt(bound) is in [0, bound), and fails exactly for a bound that is not positive |
| ReaderSpec.RandomPositionInRange | src/main/java/com/dmitrybrant/zimdroid/ZimReader.java:104-107 | the drawn position lies in [first, last), failing exactly when the range is empty |
| ReaderSpec.PrefixScan | src/main/java/com/dmitrybrant/zimdroid/ZimReader.java:132-143 | at most maxResults titles, each matching the prefix; exactly which titles is PrefixScanWindow |
| ReaderSpec.LegacyPrefixLetterNeverMatches | src/main/java/com/dmitrybrant/zimdroid/ZIMReader.java:83-98 | the capitalised prefix never matches a lower-cased title when it starts with a letter |
| DirectoryLookup.ReadUrlEntry | src/main/java/com/dmitrybrant/zimdroid/ZimReader.java:378-405 | past the cache, the reads give the URL entry |
| DirectoryLookup.ReadTitleLink | src/main/java/com/dmitrybrant/zimdroid/ZimReader.java:366-368 | the Title table's URL position leads to the title entry, or its read fails the lookup |
| DirectoryLookup.DirectoryIndex.constructor | src/main/java/com/dmitrybrant/zimdroid/ZimReader.java:48-52 | a fresh stream at position 0 and empty caches |
| DirectoryLookup.DirectoryIndex.EntryAtUrlPosition | src/main/java/com/dmitrybrant/zimdroid/ZimReader.java:374-408 | the URL entry; a cached object is returned as is, a new one is cached under its position |
| DirectoryLookup.DirectoryIndex.EntryAtTitlePosition | src/main/java/com/dmitrybrant/zimdroid/ZimReader.java:362-372 | the title entry; a new one is stamped with its position and cached |
| DirectoryLookup.DirectoryIndex.CacheTitle | src/main/java/com/dmitrybrant/zimdroid/ZimReader.java:369-370 | stamping and caching keep every cache consistent |
| DirectoryLookup.DirectoryIndex.ResolveRedirect | src/main/java/com/dmitrybrant/zimdroid/ZimReader.java:410-423 | the result is Resolve with 16 hops |
| DirectoryLookup.DirectoryIndex.BinarySearchByUrl | src/main/java/com/dmitrybrant/zimdroid/ZimReader.java:303-322 | the result is Search over the URL table |
| DirectoryLookup.DirectoryIndex.BinarySearchByTitle | src/main/java/com/dmitrybrant/zimdroid/ZimReader.java:324-343 | the result is Search over the Title table, and its title position leads to it |
| DirectoryLookup.DirectoryIndex.EntryFromEnd | src/main/java/com/dmitrybrant/zimdroid/ZimReader.java:345-360 | the result is FromEnd from articleCount - 1 |
| DirectoryLookup.DirectoryIndex.ReadClusterBlob | src/main/java/com/dmitrybrant/zimdroid/ZimReader.java:172-256 | the cluster reads give ClusterData |
| DirectoryLookup.DirectoryIndex.GetData | src/main/java/com/dmitrybrant/zimdroid/ZimReader.java:163-257 | the result is Data of the entry |
| ArticleRanges.FirstArticleStep | src/main/java/com/dmitrybrant/zimdroid/ZimReader.java:266-276 | one round of the first-article loop stops, fails or moves on |
| ArticleRanges.FirstArticleEnd | src/main/java/com/dmitrybrant/zimdroid/ZimReader.java:266-277 | past articleCount the loop has found nothing: -1 |
| ArticleRanges.LastArticleLeft | src/main/java/com/dmitrybrant/zimdroid/ZimReader.java:293-294 | a probe outside 'A' moves the end left of it |
| ArticleRanges.LastArticleRight | src/main/java/com/dmitrybrant/zimdroid/ZimReader.java:295-296 | a probe in 'A' moves the begin right of it |
| ArticleRanges.LastArticleFails | src/main/java/com/dmitrybrant/zimdroid/ZimReader.java:289 | a failed probe ends the search with its exception |
| ArticleRanges.ScanFirstArticle | src/main/java/com/dmitrybrant/zimdroid/ZimReader.java:263-277 | the loop's answer is FirstArticle from 0 |
| ArticleRanges.ScanLastArticle | src/main/java/com/dmitrybrant/zimdroid/ZimReader.java:284-300 | the loop's answer is LastArticleAll |
| ArticleRanges.NamespaceOf | src/main/java/com/dmitrybrant/zimdroid/ZimReader.java:289-293 | the namespace of the title entry at a position |
| ArticleRanges.ArticleRange.constructor | src/main/java/com/dmitrybrant/zimdroid/ZimReader.java:40-41 | both bounds start at -1, not computed |
| ArticleRanges.ArticleRange.FirstArticleTitleIndex | src/main/java/com/dmitrybrant/zimdroid/ZimReader.java:259-278 | FirstArticle, remembered once found |
| ArticleRanges.ArticleRange.LastArticleTitleIndex | src/main/java/com/dmitrybrant/zimdroid/ZimReader.java:280-301 | LastArticleAll, remembered once found |
| PrefixSearch.Glue | src/main/java/com/dmitrybrant/zimdroid/ZimReader.java:136 | titles found so far stand in front of the rest; an exception of the rest is the answer |
| PrefixSearch.PrefixScanStep | src/main/java/com/dmitrybrant/zimdroid/ZimReader.java:132-143 | one round of the prefix loop fails, stops at articleCount, or adds the title and moves on |
| PrefixSearch.Here | src/main/java/com/dmitrybrant/zimdroid/ZimReader.java:135-137 | the title is added exactly when it matches |
| PrefixSearch.ScanTitles | src/main/java/com/dmitrybrant/zimdroid/ZimReader.java:132-143 | the loop's answer is PrefixScan |
| PrefixSearch.WindowEnd | src/main/java/com/dmitrybrant/zimdroid/ZimReader.java:132-143 | the loop reads position index and then on, at most maxResults positions, stopping at articleCount |
| PrefixSearch.Matching | src/main/java/com/dmitrybrant/zimdroid/ZimReader.java:135-137 | the matching titles of a list: every title kept matches and is in the list, and every matching title of the list is kept |
| PrefixSearch.PrefixScanWindow | src/main/java/com/dmitrybrant/zimdroid/ZimReader.java:132-143 | the loop fails exactly when a position of its window is unreadable, and otherwise returns exactly the window's matching titles, in Title-table order |
| PrefixSearch.PrefixScanListsEveryMatch | src/main/java/com/dmitrybrant/zimdroid/ZimReader.java:132-143 | every matching title of the window is listed, and every listed title comes from the window |
| ZimReaders.ZimReader.constructor | src/main/java/com/dmitrybrant/zimdroid/ZimReader.java:48-52 | the reader over the file's bytes and header, empty caches, nothing remembered |
| ZimReaders.ZimReader.GetZimTitle | src/main/java/com/dmitrybrant/zimdroid/ZimReader.java:83-89 | the "Title" metadata or "", remembered |
| ZimReaders.ZimReader.GetZimDescription | src/main/java/com/dmitrybrant/zimdroid/ZimReader.java:91-102 | "Description", else "Subtitle", else "", remembered |
| ZimReaders.ZimReader.GetRandomTitle | src/main/java/com/dmitrybrant/zimdroid/ZimReader.java:104-110 | the resolved title at a drawn position between the article bounds |
| ZimReaders.ZimReader.GetMainPageTitle | src/main/java/com/dmitrybrant/zimdroid/ZimReader.java:112-118 | MainPageTitle |
| ZimReaders.ZimReader.SearchByPrefix | src/main/java/com/dmitrybrant/zimdroid/ZimReader.java:120-145 | no entry gives no titles; otherwise the scan from the found entry's title position, clamped to 0 |
| ZimReaders.ZimReader.GetNormalizedTitle | src/main/java/com/dmitrybrant/zimdroid/ZimReader.java:147-149 | the resolved title of the capitalised exact search; none is a NullPointerException |
| ZimReaders.ZimReader.GetDataForUrl | src/main/java/com/dmitrybrant/zimdroid/ZimReader.java:151-153 | Data of the exact URL search |
| ZimReaders.ZimReader.GetDataForTitle | src/main/java/com/dmitrybrant/zimdroid/ZimReader.java:155-157 | Data of the exact title search, not capitalised |
| ZimReaders.ZimReader.GetDataForSpecialUrl | src/main/java/com/dmitrybrant/zimdroid/ZimReader.java:159-161 | Data of the backward metadata scan |
| LegacyZimReaders.LegacyZimReader.constructor | src/main/java/com/dmitrybrant/zimdroid/ZIMReader.java:44-51 | the reader over the file's bytes and header, empty caches, nothing remembered |
| LegacyZimReaders.LegacyZimReader.GetZimTitle | src/main/java/com/dmitrybrant/zimdroid/ZIMReader.java:58-63 | the "Title" metadata, remembered; none is a NullPointerException |
| LegacyZimReaders.LegacyZimReader.GetZimDescription | src/main/java/com/dmitrybrant/zimdroid/ZIMReader.java:65-70 | the "Description" metadata, remembered; no Subtitle fallback |
| LegacyZimReaders.LegacyZimReader.GetRandomTitle | src/main/java/com/dmitrybrant/zimdroid/ZIMReader.java:72-78 | the resolved title at a drawn position between the article bounds |
| LegacyZimReaders.LegacyZimReader.SearchByPrefix | src/main/java/com/dmitrybrant/zimdroid/ZIMReader.java:80-108 | as the new reader, but titles are matched lower-cased |
| LegacyZimReaders.LegacyZimReader.GetNormalizedTitle | src/main/java/com/dmitrybrant/zimdroid/ZIMReader.java:110-112 | the resolved title of the verbatim exact search |
| LegacyZimReaders.LegacyZimReader.GetDataForUrl | src/main/java/com/dmitrybrant/zimdroid/ZIMReader.java:114-116 | Data of the exact URL search, legacy exceptions and memory limit |
| LegacyZimReaders.LegacyZimReader.GetDataForTitle | src/main/java/com/dmitrybrant/zimdroid/ZIMReader.java:118-120 | Data of the exact title search |
| LegacyZimReaders.LegacyZimReader.GetDataForSpecialUrl | src/main/java/com/dmitrybrant/zimdroid/ZIMReader.java:122-124 | Data of the backward metadata scan |
| Lzma2.ShiftLeft | src/main/java/org/tukaani/xz/LZMA2Decoder.java:35 | Java's `<<` on `int` gives an `int` |
| Lzma2.DictSizeAccepts | src/main/java/org/tukaani/xz/LZMA2Decoder.java:27-29 | accepted exactly when props is one byte of at most 37; else UnsupportedOptionsException("Unsupported LZMA2 properties") |
| Lzma2.DefaultOverrides | src/main/java/org/tukaani/xz/LZMA2Decoder.java:31-36 | a positive default is the size whatever the byte; a default <= 0 gives the byte's size |
| Lzma2.PropsDictSizeRange | src/main/java/org/tukaani/xz/LZMA2Decoder.java:25-35 | for p <= 37 the shift is exact, 2 or 3 times 2^(p/2 + 11), between 4096 and 3·2^29 |
| Lzma2.PropsDictSizeStep | src/main/java/org/tukaani/xz/LZMA2Decoder.java:34-35 | each byte below 37 encodes a smaller size than the next |
| Lzma2.PropsDictSizeIncreasing | src/main/java/org/tukaani/xz/LZMA2Decoder.java:34-35 | the size strictly grows with the byte, so distinct bytes give distinct sizes |
| Lzma2.Lzma2Defaults.constructor | src/main/java/org/tukaani/xz/LZMA2Decoder.java:16 | DEFAULT_DICT_SIZE starts at 0 |
| Lzma2.Lzma2Defaults.SetDefaultDictSize | src/main/java/org/tukaani/xz/LZMA2Decoder.java:18-20 | the default becomes the given size |
| Lzma2.Lzma2Decoder.Init | src/main/java/org/tukaani/xz/LZMA2Decoder.java:22 | a decoder holds its dictSize |
| Lzma2.Lzma2Decoder.New | src/main/java/org/tukaani/xz/LZMA2Decoder.java:24-37 | DictSize's exception, or a fresh decoder whose dictSize is DictSize |
| ContentProvider.CutFragment | src/main/java/com/dmitrybrant/zimdroid/ZimContentProvider.java:88-91 | the longest '#'-free prefix: no '#', a prefix, ended by the first '#' when there is one |
| ContentProvider.FilePath | src/main/java/com/dmitrybrant/zimdroid/ZimContentProvider.java:81-93 | the path has no '#' and is no longer than the URI |
| ContentProvider.NoContentUri | src/main/java/com/dmitrybrant/zimdroid/ZimContentProvider.java:82-91 | without the content URI, the path is the URI up to its first '#' |
| ContentProvider.ContentUriRoundTrip | src/main/java/com/dmitrybrant/zimdroid/ZimContentProvider.java:81-93 | the content URI followed by a '#'-free path gives that path |
| ContentProvider.DropsFrontWherever | src/main/java/com/dmitrybrant/zimdroid/ZimContentProvider.java:82-86 | wherever the content URI occurs, the URI's first \|contentUri\| characters are dropped |
| ContentProvider.CutFragmentIdempotent | src/main/java/com/dmitrybrant/zimdroid/ZimContentProvider.java:88-91 | cutting the fragment twice is cutting it once |

## Left out

- I/O:
  - the file is its bytes, so `FileNotFoundException` while opening the reader's stream (ZimReader.java:71-75) is not modelled;
  - `close` is not modelled.
- Caching and concurrency:
  - `android.util.LruCache` is a map without eviction. Eviction changes only which lookups hit the cache, and every method is proved correct whatever the cache holds.
  - `synchronized` and threads are not modelled.
- The test-only `ZimReader(file, titleCache, urlCache)` constructor is not modelled. Its mocked caches behave like empty ones, which the model covers.
- Dead null checks:
  - the lookups never return null, so the `entry == null` branches of the article-bound and search loops are dead;
  - only `getData`'s null entry and the searches' null answers are modelled.
- Text:
  - text is Latin-1, one character per byte;
  - `toString("utf-8")` of non-ASCII bytes is not modelled;
  - `toUpperCase` and `toLowerCase` map ASCII letters only.
- Integer width:
  - the loop indices of the binary searches are unbounded integers;
  - `midIndex + 1` overflow at 2^31 - 1 is not modelled.
- Random and the XZ decompressor:
  - `Random.nextInt` is the `pick` parameter;
  - `SingleXZInputStream` is the `unxz` parameter, whose short reads and exceptions are not modelled.
- LZMA2Decoder and Android plumbing:
  - `LZMA2Decoder.getMemoryUsage` and `getInputStream` only delegate to the decompressor;
  - the Android plumbing of ZimContentProvider is not modelled. That covers `openFile`, `getType`, `TransferThread`, `onCreate`, and the `query`, `insert`, `update` and `delete` stubs.
- The non-terminating MIME loop of ZIMFile: a MIME string without a NUL before the end of the file makes the Java loop spin for ever. The model reports StreamExhausted there.
- DirectoryLookup.DirectoryIndex.EntryAtTitlePosition: the frame `iset e: DirectoryEntry | Stampable(e)` allows any entry object to be stamped. The Java code stamps only the entry it returns.
- ZimReaders.ZimReader.SearchByPrefix:
  - the title position the scan starts from is returned as a ghost `start`, which satisfies `D.title(start) == Success(found entry)`;
  - which position that is depends on the cache history, since an entry object keeps the last position stamped on it;
  - the same holds for LegacyZimReaders.LegacyZimReader.SearchByPrefix.
- Stream cursor: where the stream's cursor ends after a lookup is not stated.
- Models of Java's `getClosest` search, `getData` and the metadata lookups: these are shared by both readers; `legacy` selects the exception for a bad blob number and the memory limit.
- The blob-number check follows the code as written in the readers' getData (StoredBlob, XzBlob, ReadStoredBlob, ReadXzBlob, ClusterData, Data). The evidently intended check (CheckedStoredBlob, CheckedXzBlob) is stated beside it (see Findings).
- DataStored and DataXz do not state a general outcome for a blob number equal to count - 1 or negative: the source reads on from bytes that depend on the cluster. StoredBlobAcceptsPastLast, StoredBlobAcceptsNegative, XzBlobAcceptsPastLast and XzBlobAcceptsNegative exhibit those cases.
- ZIMInputStream is not part of this model. ZIMFile (ZIMFile.java:81) and ZIMReader (ZIMReader.java:47) read through it. The model gives them the stream of ZimInputStream, Streams.ByteStream. That assumes four things of ZIMInputStream:
  - readShortLe is unsigned;
  - skip on the file stream passes the end;
  - seek rejects a negative position;
  - readString stops at the first NUL.

## Findings

| source | as written | input that shows it | evidently intended | confidence | as-written member | corrected member |
|---|---|---|---|---|---|---|
| src/main/java/com/dmitrybrant/zimdroid/ZimReader.java:192-196 | `numberOfBlobs = firstOffset / 4` counts the entries of the offset table, one more than the blobs, so `blobNumber == numberOfBlobs - 1` passes the check | the stored cluster body 08 00 00 00 0C 00 00 00 0C 00 00 00 (table 8, 12: one blob of four bytes) with blob number 1: offset[1] = 12 and the blob's own first four bytes, 12, are read as the two offsets, and an empty blob is returned | blob numbers at or past the last offset entry are rejected (`blobNumber >= numberOfBlobs - 1`) | not executed | Clusters.StoredBlobAcceptsPastLast | Clusters.CheckedStoredBlobSpec |
| src/main/java/com/dmitrybrant/zimdroid/ZimReader.java:194-203 | the check has no lower bound, and `skipFully` of the negative `(blobNumber - 1) * 4` skips nothing, so a negative blob number reads offset[1] and offset[2] | the same 12 bytes with blob number -1: 12 and 12 are read as the offsets and an empty blob is returned | negative blob numbers are rejected (`blobNumber < 0`) | not executed | Clusters.StoredBlobAcceptsNegative | Clusters.CheckedStoredBlobSpec |
| src/main/java/com/dmitrybrant/zimdroid/ZimReader.java:226-230 | the same upper check on the LZMA path | the same 12 bytes as decompressed bytes, blob number 1: an empty blob | the same corrected check | not executed | Clusters.XzBlobAcceptsPastLast | Clusters.CheckedXzBlobSpec |
| src/main/java/com/dmitrybrant/zimdroid/ZimReader.java:228-247 | no lower bound on the LZMA path either | the same 12 decompressed bytes, blob number -1: the check passes and the lead-in skip runs past the end of the decompressed bytes, where skipFully makes no progress | negative blob numbers are rejected | not executed | Clusters.XzBlobAcceptsNegative | Clusters.CheckedXzBlobSpec |
| src/main/java/com/dmitrybrant/zimdroid/ZIMReader.java:155-159 | the same check in the legacy reader's stored path | as for the first two rows | the same corrected check | not executed | Clusters.StoredBlobAcceptsPastLast | Clusters.CheckedStoredBlobSpec |
| src/main/java/com/dmitrybrant/zimdroid/ZIMReader.java:190-194 | the same check in the legacy reader's LZMA path | as for the third and fourth rows | the same corrected check | not executed | Clusters.XzBlobAcceptsPastLast | Clusters.CheckedXzBlobSpec |
