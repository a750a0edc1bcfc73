/**
 * Output of a response: the status line and the header lines handed to PHP's
 * header(), then the body. The header() calls and the body output are
 * recorded, in order, in the transmitter's output log.
 */
module Transmission {
  import opened Wrappers
  import opened PhpStrings
  import opened HeaderCollection
  import opened Messages

  /** A response: a message with a status code and a reason phrase. */
  datatype Response = Response(message: Message, statusCode: int, reasonPhrase: string)

  /** One call of header(line, replace), or the output of the body. */
  datatype Output = HeaderCall(line: string, replace: bool) | BodyOutput

  // ---------------------------------------------------------------------------
  // Status line

  /** "HTTP/<protocol> <code> <reason>", without the reason when it is falsy. */
  function StatusLine(protocol: string, statusCode: int, reasonPhrase: string): (r: string)
    ensures |r| > 5 && r[..5] == "HTTP/"
    ensures Truthy(reasonPhrase) ==> |reasonPhrase| < |r| && r[|r| - |reasonPhrase|..] == reasonPhrase
    ensures !Truthy(reasonPhrase) ==>
              |IntToString(statusCode)| < |r| && r[|r| - |IntToString(statusCode)|..] == IntToString(statusCode)
  {
    var head := "HTTP/" + protocol + " " + IntToString(statusCode);
    assert head[..5] == "HTTP/";
    if Truthy(reasonPhrase) then
      assert (head + " " + reasonPhrase)[..5] == head[..5];
      head + " " + reasonPhrase
    else head
  }

  /**
   * The status line can be read back: "HTTP/", the protocol, a space, the
   * decimal status code, and only for a truthy reason phrase a space and the
   * phrase at the end.
   */
  lemma StatusLineReadsBack(protocol: string, statusCode: int, reasonPhrase: string)
    ensures var line := StatusLine(protocol, statusCode, reasonPhrase);
            var k := 6 + |protocol|;
            var n := |IntToString(statusCode)|;
            && k + n <= |line|
            && line[..5] == "HTTP/" && line[5..k - 1] == protocol && line[k - 1] == ' '
            && ParseInt(line[k..k + n]) == Some(statusCode)
            && (Truthy(reasonPhrase) <==> |line| > k + n)
            && (Truthy(reasonPhrase) ==> line[k + n] == ' ' && line[k + n + 1..] == reasonPhrase)
  {
    var line := StatusLine(protocol, statusCode, reasonPhrase);
    var code := IntToString(statusCode);
    var k := 6 + |protocol|;
    var head := "HTTP/" + protocol + " " + code;
    assert line[..|head|] == head;
    assert head[k..k + |code|] == code;
    assert line[k..k + |code|] == code;
    IntToStringRoundTrip(statusCode);
  }

  // ---------------------------------------------------------------------------
  // Preparing the response

  /**
   * The test prepareResponse makes, as written: there is no Content-length
   * header, the Transfer-encoding line is not exactly "chunked" (ignoring
   * case), and the body reports a size. Whether the body is readable is not
   * tested.
   */
  function NeedsContentLengthAsWritten(h: Collection, body: Stream): (b: bool)
    ensures b ==> body.size.Some? && HeaderValues(h, "Content-length") == []
  {
    && !Isset(h, "Content-length")
    && !(Lower(HeaderLine(h, "Transfer-encoding")) == "chunked")
    && body.size.Some?
  }

  /** The headers prepareResponse produces as written. */
  function PreparedHeadersAsWritten(h: Collection, body: Stream): (r: Collection)
    ensures !NeedsContentLengthAsWritten(h, body) ==> r == h
    ensures NeedsContentLengthAsWritten(h, body) ==>
              r != [] && r[|r| - 1] == Field("Content-length", [IntToString(body.size.value)])
  {
    if NeedsContentLengthAsWritten(h, body) then Replace(h, "Content-length", [IntToString(body.size.value)])
    else h
  }

  /**
   * As written, an unreadable body of size 5 gets "Content-length: 5" while
   * transmit outputs no body at all: the header announces bytes that are
   * never sent.
   */
  lemma UnreadableBodyGetsLength()
    ensures var body := Stream(Some(5), false);
            Emission("1.1", 200, "OK", PreparedHeadersAsWritten([], body), body) ==
              [HeaderCall(StatusLine("1.1", 200, "OK"), true), HeaderCall("Content-length: 5", true)]
  {
    var body := Stream(Some(5), false);
    assert !Isset([], "Transfer-encoding") && HeaderLine([], "Transfer-encoding") == "";
    assert Lower("") == "";
    assert NeedsContentLengthAsWritten([], body);
    assert IntToString(5) == "5" by {
      assert NatToString(5) == [DigitChar(5)];
    }
    var p := PreparedHeadersAsWritten([], body);
    assert p == [Field("Content-length", ["5"])];
    assert HeaderLines(p) == HeaderLines([]) + FieldLines(p[0]);
    assert "Content-length" + ": " + "5" == "Content-length: 5";
    assert FieldLines(p[0])[0] == HeaderCall("Content-length: 5", true);
  }

  /**
   * The test as documented: the conditions above, and a readable body, the
   * only kind transmit outputs.
   */
  function NeedsContentLength(h: Collection, body: Stream): (b: bool)
    ensures b ==> body.readable && body.size.Some? && HeaderValues(h, "Content-length") == []
    ensures b <==> NeedsContentLengthAsWritten(h, body) && body.readable
  {
    NeedsContentLengthAsWritten(h, body) && body.readable
  }

  /**
   * The headers of the prepared response. An added Content-length is the last
   * field, spelled as the code writes it, holding the size in decimal.
   */
  function PreparedHeaders(h: Collection, body: Stream): (r: Collection)
    ensures !NeedsContentLength(h, body) ==> r == h
    ensures NeedsContentLength(h, body) ==>
              r != [] && r[|r| - 1] == Field("Content-length", [IntToString(body.size.value)])
  {
    if NeedsContentLength(h, body) then Replace(h, "Content-length", [IntToString(body.size.value)])
    else h
  }

  /**
   * With readability tested, a Content-length that preparation adds always
   * announces a body that transmit then outputs, and its value is that
   * body's size.
   */
  lemma AddedLengthAnnouncesBody(protocol: string, statusCode: int, reasonPhrase: string, h: Collection, body: Stream)
    requires WellFormed(h)
    requires !Isset(h, "Content-length") && Isset(PreparedHeaders(h, body), "Content-length")
    ensures body.readable
    ensures var out := Emission(protocol, statusCode, reasonPhrase, PreparedHeaders(h, body), body);
            out[|out| - 1] == BodyOutput
    ensures ParseInt(HeaderValues(PreparedHeaders(h, body), "Content-length")[0]) == body.size
  {
    PreparedAddsSize(h, body);
  }

  /**
   * When a length is added it is the body's size, written in decimal, as the
   * only Content-length value; every other header is as before.
   */
  lemma PreparedAddsSize(h: Collection, body: Stream)
    requires WellFormed(h) && NeedsContentLength(h, body)
    ensures var p := PreparedHeaders(h, body);
            && WellFormed(p)
            && |HeaderValues(p, "Content-length")| == 1
            && ParseInt(HeaderValues(p, "Content-length")[0]) == body.size
            && forall n :: !Same(n, "Content-length") ==> HeaderValues(p, n) == HeaderValues(h, n)
    ensures Lookup(PreparedHeaders(h, body), "Content-length") ==
              Some(Field("Content-length", [IntToString(body.size.value)]))
  {
    ReplaceEffect(h, "Content-length", [IntToString(body.size.value)]);
    IntToStringRoundTrip(body.size.value);
  }

  /**
   * As written, the same holds without readability: whenever the three
   * conditions of the code hold, readable body or not, Content-length gets
   * the body's size as its only value and every other header is as before.
   */
  lemma PreparedAsWrittenAddsSize(h: Collection, body: Stream)
    requires WellFormed(h) && NeedsContentLengthAsWritten(h, body)
    ensures var p := PreparedHeadersAsWritten(h, body);
            && WellFormed(p)
            && |HeaderValues(p, "Content-length")| == 1
            && ParseInt(HeaderValues(p, "Content-length")[0]) == body.size
            && forall n :: !Same(n, "Content-length") ==> HeaderValues(p, n) == HeaderValues(h, n)
    ensures Lookup(PreparedHeadersAsWritten(h, body), "Content-length") ==
              Some(Field("Content-length", [IntToString(body.size.value)]))
  {
    ReplaceEffect(h, "Content-length", [IntToString(body.size.value)]);
    IntToStringRoundTrip(body.size.value);
  }

  /** Without all three conditions and a readable body the headers are unchanged. */
  lemma PreparedUnchanged(h: Collection, body: Stream)
    requires !NeedsContentLength(h, body)
    ensures PreparedHeaders(h, body) == h
  {
  }

  /** Preparing a prepared response changes nothing more. */
  lemma PreparedIdempotent(h: Collection, body: Stream)
    requires WellFormed(h)
    ensures PreparedHeaders(PreparedHeaders(h, body), body) == PreparedHeaders(h, body)
  {
    if NeedsContentLength(h, body) {
      PreparedAddsSize(h, body);
      var p := PreparedHeaders(h, body);
      assert Isset(p, "Content-length");
    }
  }

  /**
   * "gzip, chunked" is not "chunked": a body of known size gets a length even
   * though its last transfer coding is chunked; a lone "chunked", in any case,
   * prevents it.
   */
  lemma ChunkedIsExactMatch(size: int)
    ensures NeedsContentLength([Field("Transfer-encoding", ["gzip", "chunked"])], Stream(Some(size), true))
    ensures !NeedsContentLength([Field("Transfer-Encoding", ["CHUNKED"])], Stream(Some(size), true))
  {
    var h1 := [Field("Transfer-encoding", ["gzip", "chunked"])];
    assert Same(h1[0].name, "Transfer-encoding");
    assert !Same(h1[0].name, "Content-length") by {
      assert Lower(h1[0].name)[0] != Lower("Content-length")[0];
    }
    assert HeaderLine(h1, "Transfer-encoding") == "gzip, chunked";
    assert |Lower("gzip, chunked")| != |"chunked"|;
    var h2 := [Field("Transfer-Encoding", ["CHUNKED"])];
    assert Lower(h2[0].name) == Lower("Transfer-encoding");
    assert HeaderLine(h2, "Transfer-encoding") == "CHUNKED";
    assert Lower("CHUNKED") == "chunked";
  }

  // ---------------------------------------------------------------------------
  // What transmit emits

  /** The header() calls for one field: "name: value" per value, only the first replacing. */
  function FieldLines(f: Field): (out: seq<Output>)
    ensures |out| == |f.values|
  {
    seq(|f.values|, j requires 0 <= j < |f.values| => HeaderCall(f.name + ": " + f.values[j], j == 0))
  }

  /** The header() calls for all fields, field after field in stored order. */
  function HeaderLines(fields: seq<Field>): (r: seq<Output>)
    decreases |fields|
  {
    if fields == [] then [] else HeaderLines(fields[..|fields| - 1]) + FieldLines(fields[|fields| - 1])
  }

  /** Everything transmit outputs: the status line, the header lines, the body if readable. */
  function Emission(protocol: string, statusCode: int, reasonPhrase: string, h: Collection, body: Stream): (r: seq<Output>)
  {
    [HeaderCall(StatusLine(protocol, statusCode, reasonPhrase), true)]
      + HeaderLines(h)
      + (if body.readable then [BodyOutput] else [])
  }

  /** The number of header() calls that replace earlier ones. */
  function ReplaceCount(out: seq<Output>): (r: nat)
    decreases |out|
  {
    if out == [] then 0
    else ReplaceCount(out[..|out| - 1]) + (if out[|out| - 1].HeaderCall? && out[|out| - 1].replace then 1 else 0)
  }

  lemma {:induction false} ReplaceCountAppend(a: seq<Output>, b: seq<Output>)
    ensures ReplaceCount(a + b) == ReplaceCount(a) + ReplaceCount(b)
    decreases |b|
  {
    if b == [] {
      assert a + b == a;
    } else {
      assert (a + b)[..|a + b| - 1] == a + b[..|b| - 1];
      assert (a + b)[|a + b| - 1] == b[|b| - 1];
      ReplaceCountAppend(a, b[..|b| - 1]);
    }
  }

  lemma {:induction false} ReplaceCountField(f: Field, k: nat)
    requires k <= |f.values|
    ensures ReplaceCount(FieldLines(f)[..k]) == if k == 0 then 0 else 1
    decreases k
  {
    if k > 0 {
      var out := FieldLines(f)[..k];
      assert out[..k - 1] == FieldLines(f)[..k - 1];
      ReplaceCountField(f, k - 1);
    }
  }

  /**
   * In a well-formed header store each field yields exactly one replacing
   * header() call, its first line; every later value of the field is added.
   */
  lemma {:induction false} OneReplacePerField(fields: seq<Field>)
    requires forall i :: 0 <= i < |fields| ==> fields[i].values != []
    ensures ReplaceCount(HeaderLines(fields)) == |fields|
    decreases |fields|
  {
    if fields != [] {
      var f := fields[|fields| - 1];
      OneReplacePerField(fields[..|fields| - 1]);
      ReplaceCountAppend(HeaderLines(fields[..|fields| - 1]), FieldLines(f));
      ReplaceCountField(f, |f.values|);
      assert FieldLines(f)[..|f.values|] == FieldLines(f);
    }
  }

  /** The header lines of consecutive runs of fields follow each other: getHeaders() order. */
  lemma {:induction false} HeaderLinesConcat(a: seq<Field>, b: seq<Field>)
    ensures HeaderLines(a + b) == HeaderLines(a) + HeaderLines(b)
    decreases |b|
  {
    if b == [] {
      assert a + b == a;
    } else {
      assert (a + b)[..|a + b| - 1] == a + b[..|b| - 1];
      assert (a + b)[|a + b| - 1] == b[|b| - 1];
      HeaderLinesConcat(a, b[..|b| - 1]);
    }
  }

  /**
   * The status line comes first and replaces; the body, when readable, comes
   * last; and there is one replacing call per header name besides.
   */
  lemma EmissionShape(protocol: string, statusCode: int, reasonPhrase: string, h: Collection, body: Stream)
    requires WellFormed(h)
    ensures var out := Emission(protocol, statusCode, reasonPhrase, h, body);
            && out[0] == HeaderCall(StatusLine(protocol, statusCode, reasonPhrase), true)
            && (body.readable <==> out[|out| - 1] == BodyOutput)
            && ReplaceCount(out) == 1 + |h|
  {
    var out := Emission(protocol, statusCode, reasonPhrase, h, body);
    var status := [HeaderCall(StatusLine(protocol, statusCode, reasonPhrase), true)];
    var tail: seq<Output> := if body.readable then [BodyOutput] else [];
    OneReplacePerField(h);
    ReplaceCountAppend(status, HeaderLines(h));
    ReplaceCountAppend(status + HeaderLines(h), tail);
    assert ReplaceCount(status) == 1 by {
      assert status[..0] == [];
    }
    assert ReplaceCount(tail) == 0 by {
      if body.readable { assert tail[..0] == []; }
    }
    if !body.readable {
      if h == [] {
        assert out == status;
      } else {
        var f := h[|h| - 1];
        assert out[|out| - 1] == FieldLines(f)[|f.values| - 1];
      }
    }
  }

  // ---------------------------------------------------------------------------

  class Transmitter {
    var chunkSize: int
    /** The calls of header() and of the body output, in order. */
    var output: seq<Output>

    constructor ()
      ensures chunkSize == 0 && output == []
    {
      chunkSize := 0;
      output := [];
    }

    method SetChunkSize(chunkSize: int)
      modifies this`chunkSize
      ensures this.chunkSize == chunkSize
    {
      this.chunkSize := chunkSize;
    }

    /**
     * Adds the Content-length header when NeedsContentLength holds, so only
     * for a readable body; otherwise returns the response itself.
     */
    method PrepareResponse(response: Response) returns (r: Response)
      requires response.message.Valid()
      ensures r.statusCode == response.statusCode && r.reasonPhrase == response.reasonPhrase
      ensures r.message.Valid()
      ensures r.message.headers == PreparedHeaders(response.message.headers, response.message.body)
      ensures r.message.body == response.message.body
      ensures r.message.protocolVersion == response.message.protocolVersion
      ensures !NeedsContentLength(response.message.headers, response.message.body) ==> r == response
      ensures NeedsContentLength(response.message.headers, response.message.body) ==> fresh(r.message)
    {
      var message := response.message;
      if !message.HasHeader("Content-length")
        && !(Lower(message.GetHeaderLine("Transfer-encoding")) == "chunked")
      {
        var size := message.body.size;
        if size.Some? && message.body.readable {
          var length := IntToString(size.value);
          assert GetValidatedHeaders(PString("Content-length"), PString(length)).value == [length];
          var updated := message.WithHeader(PString("Content-length"), PString(length));
          assert updated.Success?;
          return response.(message := updated.value);
        }
      }
      return response;
    }

    /**
     * The header loop of transmit: for each field, one header() call per
     * value, "name: value", replacing only for the field's first value.
     */
    method EmitHeaders(fields: seq<Field>)
      modifies this`output
      ensures output == old(output) + HeaderLines(fields)
    {
      var i := 0;
      while i < |fields|
        invariant 0 <= i <= |fields|
        invariant output == old(output) + HeaderLines(fields[..i])
      {
        var key := fields[i].name;
        var values := fields[i].values;
        ghost var before := output;
        var replace := true;
        var j := 0;
        while j < |values|
          invariant 0 <= j <= |values|
          invariant replace == (j == 0)
          invariant output == before + FieldLines(fields[i])[..j]
        {
          assert FieldLines(fields[i])[..j + 1] == FieldLines(fields[i])[..j] + [HeaderCall(key + ": " + values[j], replace)];
          output := output + [HeaderCall(key + ": " + values[j], replace)];
          replace := false;
          j := j + 1;
        }
        assert FieldLines(fields[i])[..j] == FieldLines(fields[i]);
        assert fields[..i + 1][..i] == fields[..i];
        i := i + 1;
      }
      assert fields[..i] == fields;
    }

    /** Outputs the status line, then the header lines of fields in order, then the body if readable. */
    method Emit(statusLine: string, fields: seq<Field>, readable: bool)
      modifies this`output
      ensures output == old(output) + [HeaderCall(statusLine, true)] + HeaderLines(fields)
                        + (if readable then [BodyOutput] else [])
    {
      output := output + [HeaderCall(statusLine, true)];
      EmitHeaders(fields);
      if readable {
        output := output + [BodyOutput];
      }
    }

    /** Prepares the response, then emits its status line, its headers and its body. */
    method Transmit(response: Response)
      requires response.message.Valid()
      modifies this`output
      ensures output == old(output) + Emission(
                response.message.protocolVersion, response.statusCode, response.reasonPhrase,
                PreparedHeaders(response.message.headers, response.message.body), response.message.body)
    {
      var version, headers, body := response.message.protocolVersion, response.message.headers, response.message.body;
      var prepared := PrepareResponse(response);
      var message := prepared.message;
      var statusLine := StatusLine(message.protocolVersion, prepared.statusCode, prepared.reasonPhrase);
      var fields := message.GetHeaders();
      assert statusLine == StatusLine(version, response.statusCode, response.reasonPhrase);
      assert fields == PreparedHeaders(headers, body);
      assert message.body == body;
      Emit(statusLine, fields, message.body.readable);
    }
  }
}
