/** The helpers of Util: title capitalisation, skipping a stream fully and
    decoding a little-endian `int` from a byte buffer. */
module Util {
  import opened Wrappers
  import opened Exceptions
  import opened Bytes
  import opened JavaStrings
  import opened Streams

  /** Util.capitalize: the first character upper-cased, the rest as is. */
  function Capitalize(s: string): (r: string)
    ensures |r| == |s|
    ensures s != [] ==> r[0] == ToUpperChar(s[0]) && r[1..] == s[1..]
    ensures forall i :: 0 < i < |s| ==> r[i] == s[i]
  {
    if |s| >= 1 then [ToUpperChar(s[0])] + s[1..] else s
  }

  /** Capitalising twice is capitalising once. */
  lemma CapitalizeIdempotent(s: string)
    ensures Capitalize(Capitalize(s)) == Capitalize(s)
  {
    if s != [] {
      var c := ToUpperChar(s[0]);
      assert ToUpperChar(c) == c;
      assert Capitalize(s)[1..] == s[1..];
    }
  }

  /** A title that starts with an upper-case letter, or with no letter at
      all, is already capitalised. */
  lemma CapitalizeFixedPoint(s: string)
    requires s == [] || !('a' <= s[0] <= 'z')
    ensures Capitalize(s) == s
  {
    if s != [] {
      assert Capitalize(s) == [s[0]] + s[1..];
    }
  }

  /** The cases of the capitalize unit test. */
  lemma CapitalizeExamples()
    ensures Capitalize("wikipedia") == "Wikipedia"
    ensures Capitalize("a") == "A"
    ensures Capitalize("Z") == "Z"
  {
    assert Capitalize("wikipedia") == ['W'] + "ikipedia";
    assert Capitalize("a") == ['A'];
  }

  /** Util.getIntLe: the first four bytes of the buffer as a little-endian
      Java `int`. */
  function GetIntLe(buffer: seq<byte>): (r: int)
    requires |buffer| >= 4
    ensures IsInt32(r)
    ensures r >= 0 <==> buffer[3] < 128
  {
    Int32At(buffer, 0)
  }

  /** Whatever follows the first four bytes, getIntLe reads back the `int`
      they encode. */
  lemma GetIntLeRoundTrip(v: int, rest: seq<byte>)
    requires IsInt32(v)
    ensures GetIntLe(EncodeInt32(v) + rest) == v
  {
    Int32RoundTrip([], v, rest);
    assert [] + EncodeInt32(v) + rest == EncodeInt32(v) + rest;
  }

  /** The case of the getIntLe unit test: 0xDDCCBBAA as a Java `int`. */
  lemma GetIntLeExample()
    ensures GetIntLe([0xAA, 0xBB, 0xCC, 0xDD]) == 0xDDCCBBAA - TWO_32
  {
  }

  /** Util.skipFully: skips until `bytes` bytes have been skipped. A skip
      that makes no progress ends the loop with StreamExhausted. */
  method SkipFully(stream: ByteStream, bytes: int) returns (o: Outcome<Exception>)
    modifies stream
    ensures o.Pass? <==> bytes <= 0 || stream.skipPastEnd || old(stream.pos) + bytes <= |stream.data|
    ensures o.Pass? ==> stream.pos == old(stream.pos) + (if bytes > 0 then bytes else 0)
    ensures o.Fail? ==> o.error == StreamExhausted &&
                        stream.pos == old(stream.pos) + Remaining(stream.data, old(stream.pos))
  {
    if bytes <= 0 {
      return Pass;
    }
    var left := bytes;
    while left > 0
      invariant 0 <= left <= bytes
      invariant stream.pos == old(stream.pos) + (bytes - left)
      invariant !stream.skipPastEnd ==> bytes - left <= Remaining(stream.data, old(stream.pos))
      invariant stream.skipPastEnd ==> left == bytes || left == 0
      decreases left
    {
      var n := stream.Skip(left);
      if n == 0 {
        return Fail(StreamExhausted);
      }
      left := left - n;
    }
    o := Pass;
  }
}
