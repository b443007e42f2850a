/**
  The wire format of the transformation server: every string travels as a
  frame, a 4-byte big-endian signed length followed by that many bytes of
  UTF-8.
 */
module Wire {
  import opened Results
  import opened Utf8

  /** Java's `int`. */
  type Int32 = x: int | -0x8000_0000 <= x < 0x8000_0000

  const MaxInt32: int := 0x7FFF_FFFF

  /** `ByteBuffer.putInt` in big-endian order: two's complement, high byte first. */
  function EncodeInt32(n: Int32): (r: seq<Byte>)
    ensures |r| == 4
  {
    var u0 := if n < 0 then n + 0x1_0000_0000 else n;
    var u1 := u0 / 0x100;
    var u2 := u1 / 0x100;
    [u2 / 0x100, u2 % 0x100, u1 % 0x100, u0 % 0x100]
  }

  /** `ByteBuffer.getInt` in big-endian order. */
  function DecodeInt32(b: seq<Byte>): Int32
    requires |b| == 4
  {
    var u := ((b[0] as int * 0x100 + b[1] as int) * 0x100 + b[2] as int) * 0x100 + b[3] as int;
    if u < 0x8000_0000 then u else u - 0x1_0000_0000
  }

  /** Splitting off the low byte of a number and putting it back are inverses. */
  lemma LowByte(q: int, d: int)
    requires 0 <= d < 0x100
    ensures (q * 0x100 + d) / 0x100 == q && (q * 0x100 + d) % 0x100 == d
  {
  }

  lemma SplitLowByte(u: int)
    requires 0 <= u
    ensures u == u / 0x100 * 0x100 + u % 0x100 && 0 <= u % 0x100 < 0x100 && 0 <= u / 0x100 <= u
  {
  }

  /** Every Java int survives the trip through its four length bytes. */
  lemma DecodeEncodeInt32(n: Int32)
    ensures DecodeInt32(EncodeInt32(n)) == n
  {
    var u0 := if n < 0 then n + 0x1_0000_0000 else n;
    var u1 := u0 / 0x100;
    var u2 := u1 / 0x100;
    SplitLowByte(u0);
    SplitLowByte(u1);
    SplitLowByte(u2);
    assert u2 / 0x100 < 0x100;
    var b := EncodeInt32(n);
    assert (b[0] as int * 0x100 + b[1] as int) == u2;
    assert (u2 * 0x100 + b[2] as int) == u1;
    assert (u1 * 0x100 + b[3] as int) == u0;
  }

  /** Every four bytes are the encoding of exactly one Java int. */
  lemma EncodeDecodeInt32(b: seq<Byte>)
    requires |b| == 4
    ensures EncodeInt32(DecodeInt32(b)) == b
  {
    var u2 := b[0] as int * 0x100 + b[1] as int;
    var u1 := u2 * 0x100 + b[2] as int;
    var u0 := u1 * 0x100 + b[3] as int;
    LowByte(b[0] as int, b[1] as int);
    LowByte(u2, b[2] as int);
    LowByte(u1, b[3] as int);
    assert 0 <= u0 < 0x1_0000_0000;
    var n: int := DecodeInt32(b);
    assert (if n < 0 then n + 0x1_0000_0000 else n) == u0;
  }

  /** The length field is negative exactly when the top bit of its first byte is set. */
  lemma DecodedSign(b: seq<Byte>)
    requires |b| == 4
    ensures DecodeInt32(b) < 0 <==> b[0] >= 0x80
  {
  }

  /** A string whose UTF-8 form fits in a Java byte array, so it can be framed. */
  predicate Sendable(s: string)
  {
    |Encode(s)| <= MaxInt32
  }

  lemma ShortIsSendable(s: string)
    requires |s| <= 0x1FFF_FFFF
    ensures Sendable(s)
  {
    EncodedLengthAtMost(s);
  }

  /** The frame `sendDataString` writes: the UTF-8 byte count, then those bytes. */
  function Frame(s: string): (r: seq<Byte>)
    requires Sendable(s)
  {
    EncodeInt32(|Encode(s)|) + Encode(s)
  }

  predicate AllSendable(ms: seq<string>)
  {
    forall i :: 0 <= i < |ms| ==> Sendable(ms[i])
  }

  function Frames(ms: seq<string>): seq<Byte>
    requires AllSendable(ms)
  {
    if ms == [] then [] else Frame(ms[0]) + Frames(ms[1..])
  }

  /** Why a frame could not be read. */
  datatype ReadError =
    | StreamEnded             // the input ended inside the frame
    | NegativeLength(n: int)  // the length field was negative

  /**
    The reader's view of one frame at the front of `data`: the decoded payload
    and the bytes after it, or why no frame could be read.
   */
  function ReadFrame(data: seq<Byte>): (r: Result<(string, seq<Byte>), ReadError>)
    ensures r.Success? ==> |r.value.1| + 4 <= |data| && r.value.1 == data[|data| - |r.value.1|..]
  {
    if |data| < 4 then Failure(StreamEnded)
    else
      var n := DecodeInt32(data[..4]);
      if n < 0 then Failure(NegativeLength(n))
      else if |data| < 4 + n then Failure(StreamEnded)
      else Success((Decode(data[4..4 + n]), data[4 + n..]))
  }

  /** A frame read back from the front of a stream yields the string that was framed. */
  lemma ReadFrameOfFrame(s: string, rest: seq<Byte>)
    requires Sendable(s)
    ensures ReadFrame(Frame(s) + rest) == Success((s, rest))
  {
    var e := Encode(s);
    var data := Frame(s) + rest;
    assert data[..4] == EncodeInt32(|e|);
    DecodeEncodeInt32(|e|);
    assert data[4..4 + |e|] == e;
    assert data[4 + |e|..] == rest;
    DecodeEncode(s);
  }

  /** What a client reads from the bytes of a whole reply: frames until the bytes run out. */
  function ReadAllFrames(data: seq<Byte>): Result<seq<string>, ReadError>
    decreases |data|
  {
    if data == [] then Success([])
    else match ReadFrame(data)
      case Failure(e) => Failure(e)
      case Success((s, rest)) =>
        match ReadAllFrames(rest)
        case Failure(e) => Failure(e)
        case Success(ss) => Success([s] + ss)
  }

  lemma ReadAllFramesStep(data: seq<Byte>, s: string, rest: seq<Byte>)
    requires ReadFrame(data) == Success((s, rest))
    ensures ReadAllFrames(data) == match ReadAllFrames(rest)
      case Failure(e) => Failure(e)
      case Success(ss) => Success([s] + ss)
  {
  }

  /** A client splits the server's output back into exactly the strings it sent. */
  lemma {:induction false} ReadAllFramesOfFrames(ms: seq<string>)
    requires AllSendable(ms)
    ensures ReadAllFrames(Frames(ms)) == Success(ms)
  {
    if ms != [] {
      var rest := Frames(ms[1..]);
      var data := Frame(ms[0]) + rest;
      assert Frames(ms) == data;
      ReadFrameOfFrame(ms[0], rest);
      ReadAllFramesOfFrames(ms[1..]);
      ReadAllFramesStep(data, ms[0], rest);
      assert [ms[0]] + ms[1..] == ms;
    }
  }

  lemma FramesAppend(ms: seq<string>, ns: seq<string>)
    requires AllSendable(ms) && AllSendable(ns)
    ensures AllSendable(ms + ns)
    ensures Frames(ms + ns) == Frames(ms) + Frames(ns)
  {
    if ms == [] {
      assert ms + ns == ns;
    } else {
      assert (ms + ns)[1..] == ms[1..] + ns;
      FramesAppend(ms[1..], ns);
    }
  }
}
