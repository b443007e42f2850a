/**
  The transformation server's side of one connection: it sends a greeting,
  reads one document frame, transforms it, and sends a status frame and, on
  success, a result frame; then it closes the connection.

  The sockets are byte streams here. The listening socket, `accept`, the
  outer loop over connections and its timeout handling are not modelled.
 */
module Server {
  import opened Results
  import opened Utf8
  import opened Wire
  import opened Transformer

  /** The bytes the client has sent and the server has not read yet. */
  class InputStream {
    var data: seq<Byte>

    constructor (data: seq<Byte>)
      ensures this.data == data
    {
      this.data := data;
    }

    /**
      `read(b, off, len)`: an offset or length outside the buffer throws
      (`outOfBounds`); a zero length reads nothing; at the end of the stream
      the result is -1; otherwise some bytes arrive, at least one and at most
      `len`, however the network happens to split them.
     */
    method Read(b: array<Byte>, off: int, len: int) returns (n: int, outOfBounds: bool)
      modifies this, b
      ensures outOfBounds <==> off < 0 || len < 0 || off + len > b.Length
      ensures outOfBounds || len == 0 || old(data) == [] ==> n == (if !outOfBounds && len > 0 then -1 else 0)
      ensures outOfBounds || len == 0 || old(data) == [] ==> data == old(data) && b[..] == old(b[..])
      ensures !outOfBounds && len > 0 && old(data) != [] ==>
        && 1 <= n <= len && n <= |old(data)|
        && data == old(data)[n..]
        && b[..off] == old(b[..off]) && b[off..off + n] == old(data)[..n] && b[off + n..] == old(b[off + n..])
    {
      outOfBounds := off < 0 || len < 0 || off + len > b.Length;
      if outOfBounds || len == 0 {
        n := 0;
        return;
      }
      if data == [] {
        n := -1;
        return;
      }
      n :| 1 <= n <= len && n <= |data|;
      var i := 0;
      while i < n
        invariant 0 <= i <= n
        invariant data == old(data)
        invariant b[..off] == old(b[..off]) && b[off + n..] == old(b[off + n..])
        invariant b[off..off + i] == data[..i]
      {
        b[off + i] := data[i];
        i := i + 1;
      }
      data := data[n..];
    }
  }

  /** The bytes the server has written to the client, and whether the socket is open. */
  class OutputStream {
    var written: seq<Byte>
    var open: bool

    constructor ()
      ensures written == [] && open
    {
      written, open := [], true;
    }

    method Write(bytes: seq<Byte>)
      requires open
      modifies this
      ensures written == old(written) + bytes && open
    {
      written := written + bytes;
    }

    method Close()
      modifies this
      ensures written == old(written) && !open
    {
      open := false;
    }
  }

  const Version: string := "1.0.0"
  const ProtocolVersion: string := "1"

  /** The first frame of every connection. */
  const Greeting: string := "XSLT Transformer server version " + Version + ", protocol version: " + ProtocolVersion + "\n"

  const SuccessStatus: string := "Success: transformation succeeded\n"

  /**
    The text of the exception that ended a read: reading past the end of the
    stream ends in an index exception from `read`, a negative length in a
    failed array allocation. Only the class name of each is modelled.
   */
  function ReadErrorText(e: ReadError): string
  {
    match e
    case StreamEnded => "java.lang.IndexOutOfBoundsException"
    case NegativeLength(_) => "java.lang.NegativeArraySizeException"
  }

  /** The status line a connection ends with and the result that follows it, if any. */
  datatype Outcome = Outcome(status: string, result: Option<string>)

  /**
    What the server makes of the bytes `input` its client sent: an error status
    when the document cannot be read or transformed, otherwise the success
    status and the serialised result.
   */
  function Respond(input: seq<Byte>, sheets: seq<string>, apply: (string, Source) -> Result<Root, string>,
                   serialize: Option<Root> -> string): Outcome
  {
    match ReadFrame(input)
    case Failure(e) => Outcome("Error: " + ReadErrorText(e), None)
    case Success((xml, _)) =>
      match Combine(sheets, StringSource(xml), apply)
      case Failure(e) => Outcome("Error: " + e, None)
      case Success(doc) => Outcome(SuccessStatus, Some(serialize(doc)))
  }

  /**
    The strings the server sends on a connection whose client sent `input`:
    the greeting, one status line, and the result only if the transformation
    succeeded.
   */
  function Reply(input: seq<Byte>, sheets: seq<string>, apply: (string, Source) -> Result<Root, string>,
                 serialize: Option<Root> -> string): seq<string>
  {
    ReplyOf(Respond(input, sheets, apply, serialize))
  }

  /** The greeting, the status line, and the result if there is one. */
  function ReplyOf(o: Outcome): seq<string>
  {
    [Greeting, o.status] + if o.result.Some? then [o.result.value] else []
  }

  /**
    Every string the server might send fits in a frame: the results of
    serialisation and the error texts of the transformation.
   */
  ghost predicate RepliesSendable(apply: (string, Source) -> Result<Root, string>, serialize: Option<Root> -> string)
  {
    && (forall d :: Sendable(serialize(d)))
    && (forall sheet, source :: apply(sheet, source).Failure? ==> Sendable("Error: " + apply(sheet, source).error))
  }

  lemma FixedTextsSendable()
    ensures Sendable(Greeting) && Sendable(SuccessStatus)
    ensures forall e :: Sendable("Error: " + ReadErrorText(e))
  {
    ShortIsSendable(Greeting);
    StatusTextsSendable();
  }

  /** The statuses fit in a frame: the success line and every read-error line. */
  lemma StatusTextsSendable()
    ensures Sendable(SuccessStatus)
    ensures forall e :: Sendable("Error: " + ReadErrorText(e))
  {
    ShortIsSendable(SuccessStatus);
    ReadErrorStatusesSendable();
  }

  lemma ReadErrorStatusesSendable()
    ensures forall e :: Sendable("Error: " + ReadErrorText(e))
  {
    forall e: ReadError ensures Sendable("Error: " + ReadErrorText(e)) {
      ErrorTextShort(e);
      ShortIsSendable("Error: " + ReadErrorText(e));
    }
  }

  lemma ErrorTextShort(e: ReadError)
    ensures |"Error: " + ReadErrorText(e)| <= 50
  {
    match e
    case StreamEnded =>
    case NegativeLength(_) =>
  }

  /** The first frame of every connection is the greeting. */
  lemma ReplyStartsWithGreeting(input: seq<Byte>, sheets: seq<string>, apply: (string, Source) -> Result<Root, string>,
                                serialize: Option<Root> -> string)
    ensures |Reply(input, sheets, apply, serialize)| >= 2
    ensures Reply(input, sheets, apply, serialize)[0] == Greeting
  {
  }

  /**
    Exactly one status follows the greeting: the success line exactly when the
    document was read and transformed, an error line otherwise; and a result
    follows it exactly when the status is the success line.
   */
  lemma ReplyStatus(input: seq<Byte>, sheets: seq<string>, apply: (string, Source) -> Result<Root, string>,
                    serialize: Option<Root> -> string)
    ensures var r := Reply(input, sheets, apply, serialize);
      var ok := ReadFrame(input).Success? && Combine(sheets, StringSource(ReadFrame(input).value.0), apply).Success?;
      && (r[1] == SuccessStatus <==> ok)
      && (!ok ==> r[1][..7] == "Error: ")
      && (|r| == 3 <==> ok)
      && (|r| == 2 <==> !ok)
  {
    var r := Reply(input, sheets, apply, serialize);
    assert SuccessStatus[0] == 'S' && "Error: "[0] == 'E';
    assert SuccessStatus[..7][0] == 'S';
    match ReadFrame(input)
    case Failure(e) =>
      assert r[1] == "Error: " + ReadErrorText(e);
    case Success((xml, _)) =>
      match Combine(sheets, StringSource(xml), apply)
      case Failure(e) =>
        assert r[1] == "Error: " + e;
      case Success(doc) =>
  }

  /** The transformation server with its one transformer. */
  class Server {
    const transformer: XSLTTransformer

    /** The server is built over a single stylesheet file. */
    constructor (xsltFileName: string)
      ensures transformer.stylesheets == [xsltFileName]
    {
      transformer := new XSLTTransformer([xsltFileName]);
    }

    /**
      `readData`: reads `size` bytes into the buffer. On a stream that ends
      first, `read` returns -1, the running total falls below zero and the next
      `read` throws; `ok` is false then and the stream has been drained.
     */
    method ReadData(buffer: array<Byte>, size: int, input: InputStream) returns (ok: bool)
      requires 0 <= size <= buffer.Length
      modifies buffer, input
      ensures ok <==> size <= |old(input.data)|
      ensures ok ==> buffer[..size] == old(input.data)[..size] && input.data == old(input.data)[size..]
      ensures !ok ==> buffer[..|old(input.data)|] == old(input.data) && input.data == []
      ensures var k := if ok then size else |old(input.data)|; buffer[k..] == old(buffer[k..])
    {
      var total := 0;
      ghost var consumed: nat := 0;
      while total < size
        invariant -1 <= total <= consumed <= size && consumed <= |old(input.data)|
        invariant input.data == old(input.data)[consumed..]
        invariant buffer[..consumed] == old(input.data)[..consumed]
        invariant buffer[consumed..] == old(buffer[consumed..])
        invariant total < consumed ==> input.data == [] && consumed < size
        decreases |input.data|, total + 1
      {
        ghost var before := buffer[..];
        var bytesRead, outOfBounds := input.Read(buffer, total, size - total);
        if outOfBounds {
          ok := false;
          return;
        }
        if bytesRead > 0 {
          FilledFrom(old(buffer[..]), before, buffer[..], old(input.data), consumed, bytesRead);
          consumed := consumed + bytesRead;
        } else {
          assert buffer[..] == before;
        }
        total := total + bytesRead;
      }
      ok := true;
    }

    /** `n` more bytes of `src` arrived in the buffer right after the `c` already there. */
    static lemma FilledFrom(initial: seq<Byte>, before: seq<Byte>, after: seq<Byte>, src: seq<Byte>, c: nat, n: nat)
      requires |initial| == |before| == |after| && c + n <= |after| && c + n <= |src|
      requires before[..c] == src[..c] && before[c..] == initial[c..]
      requires after[..c] == before[..c] && after[c..c + n] == src[c..][..n] && after[c + n..] == before[c + n..]
      ensures after[..c + n] == src[..c + n] && after[c + n..] == initial[c + n..]
    {
      assert after[..c + n] == after[..c] + after[c..c + n];
      assert src[..c + n] == src[..c] + src[c..][..n];
      assert before[c + n..] == before[c..][n..];
    }

    /** `readDataLength`: the next four bytes as a big-endian Java int. */
    method ReadDataLength(input: InputStream) returns (r: Result<Int32, ReadError>)
      modifies input
      ensures |old(input.data)| < 4 ==> r == Failure(StreamEnded) && input.data == []
      ensures |old(input.data)| >= 4 ==> r == Success(DecodeInt32(old(input.data)[..4])) && input.data == old(input.data)[4..]
    {
      var buffer := new Byte[4];
      var ok := ReadData(buffer, 4, input);
      if !ok {
        return Failure(StreamEnded);
      }
      r := Success(DecodeInt32(buffer[..]));
    }

    /**
      `readDataString`: one frame's payload decoded as UTF-8, consuming exactly
      the four length bytes and the payload.
     */
    method ReadDataString(input: InputStream) returns (r: Result<string, ReadError>)
      modifies input
      ensures match ReadFrame(old(input.data))
        case Success((s, rest)) => r == Success(s) && input.data == rest
        case Failure(e) =>
          && r == Failure(e)
          && input.data == (if e.NegativeLength? then old(input.data)[4..] else [])
    {
      ghost var d0 := input.data;
      var size := ReadDataLength(input);
      if size.Failure? {
        return Failure(size.error);
      }
      var n := size.value;
      assert n == DecodeInt32(d0[..4]);
      if n < 0 {
        return Failure(NegativeLength(n));
      }
      var buffer := new Byte[n];
      var ok := ReadData(buffer, n, input);
      if !ok {
        assert |d0| < 4 + n as int;
        return Failure(StreamEnded);
      }
      assert buffer[..] == buffer[..n];
      assert d0[4..][..n] == d0[4..4 + n];
      assert d0[4..][n..] == d0[4 + n..];
      r := Success(Decode(buffer[..]));
      assert ReadFrame(d0) == Success((Decode(d0[4..4 + n]), d0[4 + n..]));
    }

    /** `sendData`. */
    method SendData(data: seq<Byte>, output: OutputStream)
      requires output.open
      modifies output
      ensures output.written == old(output.written) + data && output.open
    {
      output.Write(data);
    }

    /** `sendDataSize`: the size as four big-endian bytes, put into a byte array. */
    method SendDataSize(size: Int32, output: OutputStream)
      requires output.open
      modifies output
      ensures output.written == old(output.written) + EncodeInt32(size) && output.open
    {
      var sizeBytes := new Byte[4];
      var encoded := EncodeInt32(size);
      sizeBytes[0], sizeBytes[1], sizeBytes[2], sizeBytes[3] := encoded[0], encoded[1], encoded[2], encoded[3];
      assert sizeBytes[..] == encoded;
      SendData(sizeBytes[..], output);
    }

    /** `sendDataString`: the UTF-8 byte count, then those bytes. */
    method SendDataString(s: string, output: OutputStream)
      requires output.open && Sendable(s)
      modifies output
      ensures output.written == old(output.written) + Frame(s) && output.open
    {
      var bytes := Encode(s);
      SendDataSize(|bytes|, output);
      SendData(bytes, output);
    }

    /**
      One pass of the server loop for an accepted connection: greeting, one
      document, one status, the result only on success, then close.
     */
    method HandleConnection(input: InputStream, output: OutputStream,
                            apply: (string, Source) -> Result<Root, string>, serialize: Option<Root> -> string)
      requires output.open
      requires RepliesSendable(apply, serialize)
      modifies input, output
      ensures var reply := Reply(old(input.data), transformer.stylesheets, apply, serialize);
        AllSendable(reply) && output.written == old(output.written) + Frames(reply)
      ensures !output.open
      ensures match ReadFrame(old(input.data))
        case Success((_, rest)) => input.data == rest
        case Failure(e) => input.data == (if e.NegativeLength? then old(input.data)[4..] else [])
    {
      ShortIsSendable(Greeting);
      ghost var w0 := output.written;
      SendDataString(Greeting, output);
      ghost var received := input.data;
      var status, result := Process(input, apply, serialize);
      RespondSendable(received, transformer.stylesheets, apply, serialize);
      SendOutcome(status, result, output);
      OutcomeFrames(w0, status, result);
      output.Close();
    }

    /** The status line, then the result if there is one. */
    method SendOutcome(status: string, result: Option<string>, output: OutputStream)
      requires output.open && Sendable(status) && (result.Some? ==> Sendable(result.value))
      modifies output
      ensures output.open
      ensures output.written == old(output.written) + Frame(status)
        + (if result.Some? then Frame(result.value) else [])
    {
      SendDataString(status, output);
      if result.Some? {
        SendDataString(result.value, output);
      }
    }

    /**
      The part of the connection between the greeting and the sends: read the
      document, transform it, and pick the status line and the optional result.
     */
    method Process(input: InputStream, apply: (string, Source) -> Result<Root, string>,
                   serialize: Option<Root> -> string)
      returns (status: string, result: Option<string>)
      modifies input
      ensures Outcome(status, result) == Respond(old(input.data), transformer.stylesheets, apply, serialize)
      ensures match ReadFrame(old(input.data))
        case Success((_, rest)) => input.data == rest
        case Failure(e) => input.data == (if e.NegativeLength? then old(input.data)[4..] else [])
    {
      result := None;
      var xml := ReadDataString(input);
      if xml.Failure? {
        status := "Error: " + ReadErrorText(xml.error);
      } else {
        status := SuccessStatus;
        var transformed := transformer.TransformString(xml.value, apply, serialize);
        if transformed.Failure? {
          status := "Error: " + transformed.error;
        } else {
          result := Some(transformed.value);
        }
      }
    }
  }

  /** Under `RepliesSendable`, everything the server sends after the greeting fits in a frame. */
  lemma RespondSendable(input: seq<Byte>, sheets: seq<string>, apply: (string, Source) -> Result<Root, string>,
                        serialize: Option<Root> -> string)
    requires RepliesSendable(apply, serialize)
    ensures var o := Respond(input, sheets, apply, serialize);
      Sendable(o.status) && (o.result.Some? ==> Sendable(o.result.value))
  {
    var o := Respond(input, sheets, apply, serialize);
    match ReadFrame(input)
    case Failure(e) =>
      assert o.status == "Error: " + ReadErrorText(e) && o.result.None?;
      StatusTextsSendable();
    case Success((xml, _)) =>
      match Combine(sheets, StringSource(xml), apply)
      case Failure(e) =>
        CombineFailureSendable(sheets, StringSource(xml), apply, serialize);
        assert o.status == "Error: " + e && o.result.None?;
      case Success(doc) =>
        assert o == Outcome(SuccessStatus, Some(serialize(doc)));
        StatusTextsSendable();
        assert Sendable(serialize(doc));
  }

  lemma CombineFailureSendable(sheets: seq<string>, source: Source,
                               apply: (string, Source) -> Result<Root, string>, serialize: Option<Root> -> string)
    requires RepliesSendable(apply, serialize)
    requires Combine(sheets, source, apply).Failure?
    ensures Sendable("Error: " + Combine(sheets, source, apply).error)
  {
    OutputsFailureComesFromApply(sheets, source, apply);
  }

  lemma {:induction false} OutputsFailureComesFromApply(sheets: seq<string>, source: Source,
                                                        apply: (string, Source) -> Result<Root, string>)
    requires Outputs(sheets, source, apply).Failure?
    ensures exists i :: 0 <= i < |sheets| && apply(sheets[i], source) == Failure(Outputs(sheets, source, apply).error)
  {
    if apply(sheets[0], source).Success? {
      OutputsFailureComesFromApply(sheets[1..], source, apply);
      var i :| 0 <= i < |sheets[1..]| && apply(sheets[1..][i], source) == Failure(Outputs(sheets[1..], source, apply).error);
      assert sheets[1..][i] == sheets[i + 1];
    }
  }

  /** The bytes written for a connection are the frames of its reply, in order. */
  lemma OutcomeFrames(w: seq<Byte>, status: string, result: Option<string>)
    requires Sendable(Greeting) && Sendable(status) && (result.Some? ==> Sendable(result.value))
    ensures AllSendable(ReplyOf(Outcome(status, result)))
    ensures w + Frame(Greeting) + Frame(status) + (if result.Some? then Frame(result.value) else [])
      == w + Frames(ReplyOf(Outcome(status, result)))
  {
    if result.Some? {
      Frames3(Greeting, status, result.value);
      assert ReplyOf(Outcome(status, result)) == [Greeting, status, result.value];
      Associate3(w, Frame(Greeting), Frame(status), Frame(result.value));
    } else {
      Frames2(Greeting, status);
      assert ReplyOf(Outcome(status, result)) == [Greeting, status];
      Associate2(w, Frame(Greeting), Frame(status));
    }
  }

  lemma Associate2<T>(w: seq<T>, a: seq<T>, b: seq<T>)
    ensures w + a + b == w + (a + b)
  {
  }

  lemma Associate3<T>(w: seq<T>, a: seq<T>, b: seq<T>, c: seq<T>)
    ensures w + a + b + c == w + (a + b + c)
  {
  }

  lemma Frames2(a: string, b: string)
    requires Sendable(a) && Sendable(b)
    ensures AllSendable([a, b])
    ensures Frames([a, b]) == Frame(a) + Frame(b)
  {
    assert [a, b][1..] == [b];
    assert [b][1..] == [];
    assert Frames([b]) == Frame(b) + Frames([]);
  }

  lemma Frames3(a: string, b: string, c: string)
    requires Sendable(a) && Sendable(b) && Sendable(c)
    ensures AllSendable([a, b, c])
    ensures Frames([a, b, c]) == Frame(a) + Frame(b) + Frame(c)
  {
    assert [a, b, c][1..] == [b, c];
    Frames2(b, c);
  }
}
