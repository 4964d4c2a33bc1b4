/** The byte cursor: ZimInputStream over the archive file, and the same
    cursor over the bytes a decompressing stream delivers.

    The pure functions describe what a read at a given position yields and
    where the cursor ends up; the class ByteStream performs the reads step
    by step, as the Java stream does, and is proved against them. A position
    may lie beyond the end of the data (a file channel may be positioned
    there); reads at such a position see the end of the stream. */
module Streams {
  import opened Wrappers
  import opened Exceptions
  import opened Bytes

  /** A value read from a stream and the position just after it. */
  datatype Read<+T> = Read(value: T, next: nat)

  function Remaining(data: seq<byte>, pos: nat): nat
  {
    if pos < |data| then |data| - pos else 0
  }

  /** What a read of up to n bytes at pos delivers: n bytes, or those left
      before the end. */
  function Available(data: seq<byte>, pos: nat, n: nat): (r: seq<byte>)
    ensures |r| == Min(n, Remaining(data, pos))
    ensures |r| == n ==> (n == 0 || pos + n <= |data|)
    ensures pos + n <= |data| ==> r == data[pos..pos + n]
    ensures forall i :: 0 <= i < |r| ==> r[i] == data[pos + i]
  {
    if pos < |data| then data[pos..pos + Min(n, |data| - pos)] else []
  }

  /** A buffer after `bytes` were copied into its start. */
  function Fill(buf: seq<byte>, bytes: seq<byte>): (r: seq<byte>)
    requires |bytes| <= |buf|
    ensures |r| == |buf|
    ensures forall i :: 0 <= i < |bytes| ==> r[i] == bytes[i]
    ensures forall i :: |bytes| <= i < |buf| ==> r[i] == buf[i]
  {
    bytes + buf[|bytes|..]
  }

  /** InputStream.read(): the next byte, or -1 at the end. */
  function ByteAt(data: seq<byte>, pos: nat): (r: int)
    ensures -1 <= r < 256
    ensures r == -1 <==> pos >= |data|
  {
    if pos < |data| then data[pos] else -1
  }

  /** The position after InputStream.read(). */
  function Advance(data: seq<byte>, pos: nat): nat
  {
    if pos < |data| then pos + 1 else pos
  }

  /** InputStream.skip(n): how many bytes are skipped. A stream that may
      skip past its end skips all n. */
  function SkipCount(data: seq<byte>, pos: nat, n: int, skipPastEnd: bool): (r: nat)
    ensures n <= 0 ==> r == 0
    ensures n > 0 && skipPastEnd ==> r == n
    ensures n > 0 && !skipPastEnd ==> r == Min(n, Remaining(data, pos))
  {
    if n <= 0 then 0 else if skipPastEnd then n else Min(n, Remaining(data, pos))
  }

  /** ZimInputStream.readShortLe: two bytes, or the IOException of a short
      read when fewer are left. */
  function ShortLe(data: seq<byte>, pos: nat): Result<Read<int>, Exception>
  {
    if pos + 2 <= |data| then Success(Read(UInt16At(data, pos), pos + 2))
    else Failure(IOException(READ_FAILED))
  }

  /** ZimInputStream.readIntLe: four bytes as an `int`, or the IOException
      of a short read. */
  function IntLe(data: seq<byte>, pos: nat): Result<Read<int>, Exception>
  {
    if pos + 4 <= |data| then Success(Read(Int32At(data, pos), pos + 4))
    else Failure(IOException(READ_FAILED))
  }

  /** ZimInputStream.readLongLe: eight bytes as a `long`, or the
      IOException of a short read. */
  function LongLe(data: seq<byte>, pos: nat): Result<Read<int>, Exception>
  {
    if pos + 8 <= |data| then Success(Read(Int64At(data, pos), pos + 8))
    else Failure(IOException(READ_FAILED))
  }

  /** The first NUL byte at or after k, if any. */
  function NulFrom(data: seq<byte>, k: nat): (r: Option<nat>)
    ensures r.Some? ==> k <= r.value < |data| && data[r.value] == 0
    ensures r.Some? ==> forall i :: k <= i < r.value ==> data[i] != 0
    ensures r.None? ==> forall i :: k <= i < |data| ==> data[i] != 0
    decreases |data| - k
  {
    if k >= |data| then None
    else if data[k] == 0 then Some(k)
    else NulFrom(data, k + 1)
  }

  /** ZimInputStream.readString: the bytes before the next NUL, with the
      cursor left just past the NUL; the end of the stream before a NUL is
      an IOException. StringAtSpec states what it reads. */
  function StringAt(data: seq<byte>, pos: nat): (r: Result<Read<string>, Exception>)
    ensures r.Success? ==> pos < r.value.next <= |data|
    ensures r.Failure? ==> r.error == IOException(READ_FAILED)
  {
    match NulFrom(data, pos)
    case None => Failure(IOException(READ_FAILED))
    case Some(k) => Success(Read(Latin1(data[pos..k]), k + 1))
  }

  /** A string read ends at the first NUL after pos, holds the bytes
      before it, and fails exactly when no NUL follows pos. */
  lemma StringAtSpec(data: seq<byte>, pos: nat)
    ensures var r := StringAt(data, pos);
      r.Success? ==> (data[r.value.next - 1] == 0
                      && r.value.value == Latin1(data[pos..r.value.next - 1])
                      && forall i :: pos <= i < r.value.next - 1 ==> data[i] != 0)
    ensures StringAt(data, pos).Failure? <==> forall i :: pos <= i < |data| ==> data[i] != 0
  {
  }

  /** At a NUL byte the string read is empty: the sentinel that ends the
      MIME list. */
  lemma StringAtNul(data: seq<byte>, pos: nat)
    requires pos < |data| && data[pos] == 0
    ensures StringAt(data, pos) == Success(Read([], pos + 1))
  {
  }

  /** The string read at pos is exactly the bytes up to a NUL that ends it. */
  lemma StringAtTerminated(data: seq<byte>, pos: nat, n: nat)
    requires pos + n < |data| && data[pos + n] == 0
    requires forall i :: pos <= i < pos + n ==> data[i] != 0
    ensures StringAt(data, pos) == Success(Read(Latin1(data[pos..pos + n]), pos + n + 1))
  {
    var k := NulFrom(data, pos);
    assert k.Some?;
    assert k.value == pos + n;
  }

  class ByteStream {
    const data: seq<byte>
    /** True for the archive file, whose skip can pass its end; false for a
        decompressing stream, whose skip stops at its end. */
    const skipPastEnd: bool
    var pos: nat

    constructor (data: seq<byte>, skipPastEnd: bool)
      ensures this.data == data && this.skipPastEnd == skipPastEnd && pos == 0
    {
      this.data := data;
      this.skipPastEnd := skipPastEnd;
      pos := 0;
    }

    /** InputStream.read(). */
    method Read() returns (b: int)
      modifies this
      ensures b == ByteAt(data, old(pos))
      ensures pos == Advance(data, old(pos))
    {
      b := ByteAt(data, pos);
      pos := Advance(data, pos);
    }

    /** InputStream.read(buf, 0, len), which read(buf) is with len the
        buffer's length: copies what is available, up to len bytes, to the
        start of buf and returns how many it copied, or -1 at the end. */
    method ReadInto(buf: array<byte>, len: nat) returns (n: int)
      requires len <= buf.Length
      modifies this, buf
      ensures buf[..] == Fill(old(buf[..]), Available(data, old(pos), len))
      ensures pos == old(pos) + |Available(data, old(pos), len)|
      ensures n == if len == 0 then 0
                   else if Available(data, old(pos), len) == [] then -1
                   else |Available(data, old(pos), len)|
    {
      var got := Available(data, pos, len);
      forall i | 0 <= i < |got| {
        buf[i] := got[i];
      }
      assert buf[..] == Fill(old(buf[..]), got);
      pos := pos + |got|;
      n := if len == 0 then 0 else if got == [] then -1 else |got|;
    }

    /** InputStream.skip(n). */
    method Skip(n: int) returns (skipped: int)
      modifies this
      ensures skipped == SkipCount(data, old(pos), n, skipPastEnd)
      ensures pos == old(pos) + skipped
    {
      skipped := SkipCount(data, pos, n, skipPastEnd);
      pos := pos + skipped;
    }

    /** ZimInputStream.seek: positions the channel and discards buffered
        bytes, so the next read starts at p. A negative position is
        rejected by the channel. */
    method Seek(p: int) returns (o: Outcome<Exception>)
      modifies this
      ensures p < 0 ==> o == Fail(IllegalArgumentException(BAD_ARGUMENT)) && pos == old(pos)
      ensures p >= 0 ==> o == Pass && pos == p
    {
      if p < 0 {
        return Fail(IllegalArgumentException(BAD_ARGUMENT));
      }
      pos := p;
      o := Pass;
    }

    /** ZimInputStream.readShortLe. */
    method ReadShortLe() returns (r: Result<int, Exception>)
      modifies this
      ensures old(pos) + 2 <= |data| ==>
        r == Success(UInt16At(data, old(pos))) && pos == old(pos) + 2
      ensures old(pos) + 2 > |data| ==>
        r == Failure(IOException(READ_FAILED)) && pos == old(pos) + Remaining(data, old(pos))
    {
      var got := Available(data, pos, 2);
      pos := pos + |got|;
      if |got| != 2 {
        return Failure(IOException(READ_FAILED));
      }
      r := Success(UInt16At(got, 0));
    }

    /** ZimInputStream.readIntLe. */
    method ReadIntLe() returns (r: Result<int, Exception>)
      modifies this
      ensures old(pos) + 4 <= |data| ==>
        r == Success(Int32At(data, old(pos))) && pos == old(pos) + 4
      ensures old(pos) + 4 > |data| ==>
        r == Failure(IOException(READ_FAILED)) && pos == old(pos) + Remaining(data, old(pos))
    {
      var got := Available(data, pos, 4);
      pos := pos + |got|;
      if |got| != 4 {
        return Failure(IOException(READ_FAILED));
      }
      r := Success(Int32At(got, 0));
    }

    /** ZimInputStream.readLongLe. */
    method ReadLongLe() returns (r: Result<int, Exception>)
      modifies this
      ensures old(pos) + 8 <= |data| ==>
        r == Success(Int64At(data, old(pos))) && pos == old(pos) + 8
      ensures old(pos) + 8 > |data| ==>
        r == Failure(IOException(READ_FAILED)) && pos == old(pos) + Remaining(data, old(pos))
    {
      var got := Available(data, pos, 8);
      pos := pos + |got|;
      if |got| != 8 {
        return Failure(IOException(READ_FAILED));
      }
      r := Success(Int64At(got, 0));
    }

    /** ZimInputStream.readString: reads byte by byte up to a NUL. */
    method ReadString() returns (r: Result<string, Exception>)
      modifies this
      ensures StringAt(data, old(pos)).Success? ==>
        r == Success(StringAt(data, old(pos)).value.value) && pos == StringAt(data, old(pos)).value.next
      ensures StringAt(data, old(pos)).Failure? ==>
        r == Failure(IOException(READ_FAILED)) && pos == old(pos) + Remaining(data, old(pos))
    {
      var bytes: seq<byte> := [];
      var b := Read();
      if b < 0 {
        return Failure(IOException(READ_FAILED));
      }
      while b != 0
        invariant old(pos) < pos <= |data|
        invariant b == data[pos - 1]
        invariant bytes == data[old(pos)..pos - 1]
        invariant forall i :: old(pos) <= i < pos - 1 ==> data[i] != 0
        decreases |data| - pos
      {
        bytes := bytes + [b as byte];
        b := Read();
        if b < 0 {
          return Failure(IOException(READ_FAILED));
        }
      }
      StringAtTerminated(data, old(pos), pos - 1 - old(pos));
      r := Success(Latin1(bytes));
    }
  }
}
