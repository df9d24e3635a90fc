/**
 * The three answers the server sends: `422` with a reason, `204` with no
 * body, and `200` with the pin state as a plain-text body. Each is a status
 * line, a `Content-Length` header written with `str(len(body))`, and the body.
 */
module Responses {
  import opened Options
  import opened PyBytes
  import opened Request

  const STATUS_200: seq<byte> := Ascii("HTTP/1.1 200 OK\r\n")
  const STATUS_204: seq<byte> := Ascii("HTTP/1.1 204 No Content\r\n")
  const STATUS_422: seq<byte> := Ascii("HTTP/1.1 422 Unprocessable Content\r\n")
  const CONTENT_LENGTH: seq<byte> := Ascii("Content-Length: ")

  // The response constants, each the same bytes as the full literal in the
  // comment beside it, written so that the status line stands apart.
  const HTTP_NO_CONTENT: seq<byte> := STATUS_204 + CONTENT_LENGTH + Ascii("0\r\n\r\n")
    // "HTTP/1.1 204 No Content\r\nContent-Length: 0\r\n\r\n"
  const HTTP_RESPONSE_1: seq<byte> := STATUS_200 + CONTENT_LENGTH
    // "HTTP/1.1 200 OK\r\nContent-Length: "
  const HTTP_RESPONSE_2: seq<byte> := Ascii("\r\nContent-Type: text/plain\r\n\r\n")
  const HTTP_ERROR_1: seq<byte> := STATUS_422 + CONTENT_LENGTH
    // "HTTP/1.1 422 Unprocessable Content\r\nContent-Length: "
  const HTTP_ERROR_2: seq<byte> := Ascii("\r\nContent-Type: text/plain\r\n\r\n")

  /** The outcome of one request, before it is written to the socket. */
  datatype Response = Unprocessable(message: seq<byte>) | NoContent | Content(body: seq<byte>)

  /** The bytes after the blank line: the reason, nothing, or the pin state. */
  function Body(r: Response): seq<byte>
  {
    match r
    case Unprocessable(message) => message
    case NoContent => []
    case Content(body) => body
  }

  /** `RespondError`: the `422` status line, the length of the reason, then the reason. */
  function RespondError(message: seq<byte>): (r: seq<byte>)
    ensures STATUS_422 <= r
    ensures |message| <= |r| && r[|r| - |message|..] == message
  {
    HTTP_ERROR_1 + FormatDecimal(|message|) + HTTP_ERROR_2 + message
  }

  /** `RespondContent`: the `200` status line, the length of the body, then the body. */
  function RespondContent(message: seq<byte>): (r: seq<byte>)
    ensures STATUS_200 <= r
    ensures |message| <= |r| && r[|r| - |message|..] == message
  {
    HTTP_RESPONSE_1 + FormatDecimal(|message|) + HTTP_RESPONSE_2 + message
  }

  /** `RespondNoContent`: the fixed `204` answer. */
  function RespondNoContent(): (r: seq<byte>)
    ensures STATUS_204 <= r
  {
    HTTP_NO_CONTENT
  }

  /** The bytes sent for a response. */
  function Wire(r: Response): (w: seq<byte>)
    ensures r.Unprocessable? ==> STATUS_422 <= w
    ensures r.NoContent? ==> STATUS_204 <= w
    ensures r.Content? ==> STATUS_200 <= w
    ensures |Body(r)| <= |w| && w[|w| - |Body(r)|..] == Body(r)
  {
    match r
    case Unprocessable(message) => RespondError(message)
    case NoContent => RespondNoContent()
    case Content(body) => RespondContent(body)
  }

  /**
   * A `Content-Length` field preceded by bytes without a `-` and followed by
   * a digit run and a CRLF is found, and its value is that digit run.
   */
  lemma {:induction false} ContentLengthField(pre: seq<byte>, digits: seq<byte>, post: seq<byte>)
    requires NoHyphen(pre)
    requires AllDigits(digits)
    requires CRLF <= post
    ensures GetHeader(CONTENT_LENGTH, pre + CONTENT_LENGTH + digits + post) == Some(digits)
  {
    var wire := pre + CONTENT_LENGTH + digits + post;
    var k := |pre|;
    var from := k + |CONTENT_LENGTH|;
    var e := from + |digits|;
    assert wire[k..from] == CONTENT_LENGTH;
    forall i: nat | i < k
      ensures !OccursAt(wire, CONTENT_LENGTH, i)
    {
      if i + 7 < k {
        assert wire[i + 7] == pre[i + 7];
      } else {
        assert wire[i + 7] == CONTENT_LENGTH[i + 7 - k];
      }
      assert wire[i + 7] != CONTENT_LENGTH[7];
      if i + |CONTENT_LENGTH| <= |wire| {
        assert wire[i..i + |CONTENT_LENGTH|][7] == wire[i + 7];
      }
    }
    assert FirstFrom(wire, CONTENT_LENGTH, 0, k);
    assert wire[e..e + 2] == CRLF;
    forall i: nat | from <= i < e
      ensures !OccursAt(wire, CRLF, i)
    {
      assert wire[i] == digits[i - from];
    }
    assert FirstFrom(wire, CRLF, from, e);
    HeaderTerminated(CONTENT_LENGTH, wire, k, e);
    assert wire[from..e] == digits;
  }

  /** No byte of `s` is a `-`, so no `Content-Length: ` can end inside it. */
  predicate NoHyphen(s: seq<byte>)
  {
    forall j :: 0 <= j < |s| ==> s[j] != 45
  }

  /** An ASCII literal without `-` gives bytes without `-`. */
  lemma AsciiNoHyphen(text: string)
    requires forall j :: 0 <= j < |text| ==> text[j] as int < 128 && text[j] != '-'
    ensures NoHyphen(Ascii(text))
  {
  }

  /** None of the three status lines contains a `-`. */
  lemma StatusLinesNoHyphen()
    ensures NoHyphen(STATUS_200) && NoHyphen(STATUS_204) && NoHyphen(STATUS_422)
  {
    AsciiNoHyphen("HTTP/1.1 200 OK\r\n");
    AsciiNoHyphen("HTTP/1.1 204 No Content\r\n");
    AsciiNoHyphen("HTTP/1.1 422 Unprocessable Content\r\n");
  }

  /** Both header tails start with the CRLF that ends the `Content-Length` field. */
  lemma HeaderTailsStartWithCrlf()
    ensures CRLF <= HTTP_ERROR_2 && CRLF <= HTTP_RESPONSE_2
  {
  }

  /**
   * A response laid out as the source lays it out: a status line, the
   * `Content-Length` field, `str(len(body))`, a CRLF-led header tail and
   * the body. Its `Content-Length` value is the printed body length.
   */
  lemma {:induction false} LaidOutContentLength(status: seq<byte>, tail: seq<byte>, body: seq<byte>)
    requires NoHyphen(status)
    requires CRLF <= tail
    ensures GetHeader(CONTENT_LENGTH, status + CONTENT_LENGTH + FormatDecimal(|body|) + tail + body)
         == Some(FormatDecimal(|body|))
  {
    var digits := FormatDecimal(|body|);
    var post := tail + body;
    assert CRLF <= post by {
      assert post[..|CRLF|] == tail[..|CRLF|];
    }
    ContentLengthField(status, digits, post);
    assert status + CONTENT_LENGTH + digits + tail + body == status + CONTENT_LENGTH + digits + post;
  }

  /** The `422` response announces the length of its reason. */
  lemma ErrorContentLength(message: seq<byte>)
    ensures GetHeader(CONTENT_LENGTH, RespondError(message)) == Some(FormatDecimal(|message|))
  {
    StatusLinesNoHyphen();
    HeaderTailsStartWithCrlf();
    LaidOutContentLength(STATUS_422, HTTP_ERROR_2, message);
  }

  /** The `200` response announces the length of its body. */
  lemma ContentContentLength(body: seq<byte>)
    ensures GetHeader(CONTENT_LENGTH, RespondContent(body)) == Some(FormatDecimal(|body|))
  {
    StatusLinesNoHyphen();
    HeaderTailsStartWithCrlf();
    LaidOutContentLength(STATUS_200, HTTP_RESPONSE_2, body);
  }

  /** The `204` response announces an empty body. */
  lemma NoContentContentLength()
    ensures GetHeader(CONTENT_LENGTH, RespondNoContent()) == Some(FormatDecimal(0))
  {
    var tail := Ascii("\r\n\r\n");
    assert HTTP_NO_CONTENT == STATUS_204 + CONTENT_LENGTH + FormatDecimal(0) + tail;
    StatusLinesNoHyphen();
    ContentLengthField(STATUS_204, FormatDecimal(0), tail);
  }

  /**
   * Every response carries a `Content-Length` whose value is a digit run
   * naming the length of the body, and the body is what ends the response.
   */
  lemma ContentLengthIsBodyLength(r: Response)
    ensures var length := GetHeader(CONTENT_LENGTH, Wire(r));
            length.Some? && IsDigits(length.value) && DecimalValue(length.value) == |Body(r)|
    ensures |Body(r)| <= |Wire(r)| && Wire(r)[|Wire(r)| - |Body(r)|..] == Body(r)
  {
    match r
    case Unprocessable(message) => ErrorContentLength(message);
    case NoContent => NoContentContentLength();
    case Content(body) => ContentContentLength(body);
  }
}
