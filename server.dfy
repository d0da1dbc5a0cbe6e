/** src/main.rs: the pure part of `handle_connection`.  The bytes of the request
    are matched against one exact request line to choose between the index page
    and the 404 page, and the response is the status line, one Content-Length
    header field (section 8.6 of RFC 9110) giving the body's length in bytes, the
    blank line that ends the header section, and the body (section 4 of
    RFC 9112 for the status line). */
module Server {
  import opened Outcomes
  import opened Text
  import opened Files

  newtype byte = x: int | 0 <= x < 0x100

  /** Size of the zero-filled buffer that one `stream.read` fills. */
  const BufferSize: nat := 1024

  /** The byte string `b"..."` of an ASCII string literal. */
  function AsciiBytes(s: string): (b: seq<byte>)
    requires IsAscii(s)
    ensures |b| == |s| && forall i | 0 <= i < |s| :: b[i] as int == s[i] as int
  {
    seq(|s|, i requires 0 <= i < |s| => s[i] as int as byte)
  }

  /** The only request line answered with the index page. */
  const RootRequestLine: seq<byte> := AsciiBytes("GET / HTTP/1.1\r\n")

  const OkStatusLine: string := "HTTP/1.1 200 OK"
  const NotFoundStatusLine: string := "HTTP/1.1 404 NOT FOUND"
  /** Line 43 names the index page on its own, separately from
      `Response.IndexPage` of src/response.rs. */
  const IndexPage: string := "pages/index.html"
  const NotFoundPage: string := "pages/404.html"

  /** The buffer after `stream.read(&mut buffer)` has delivered `received`: those
      bytes, then the zeros it was created with. */
  function ReceiveBuffer(received: seq<byte>): (buffer: seq<byte>)
    requires |received| <= BufferSize
    ensures |buffer| == BufferSize && received <= buffer
    ensures forall i | |received| <= i < BufferSize :: buffer[i] == 0
  {
    received + seq(BufferSize - |received|, _ => 0)
  }

  /** The `(status_line, filename)` choice of lines 41-47: the index page with the
      200 status line when the first bytes are the root request line, the 404
      page with the 404 status line otherwise. */
  function SelectPage(buffer: seq<byte>): (page: (string, string))
    ensures page.1 == IndexPage <==>
      |RootRequestLine| <= |buffer| && buffer[..|RootRequestLine|] == RootRequestLine
    ensures page.1 == IndexPage <==> page.0 == OkStatusLine
    ensures page.1 != IndexPage ==> page == (NotFoundStatusLine, NotFoundPage)
  {
    if RootRequestLine <= buffer then (OkStatusLine, IndexPage)
    else (NotFoundStatusLine, NotFoundPage)
  }

  /** The `format!` of lines 53-58: the status line first, the contents last, and
      a header section between them. */
  function FormatResponse(statusLine: string, contents: string): (response: string)
    ensures statusLine <= response
    ensures |statusLine| + |contents| < |response|
    ensures response[|response| - |contents|..] == contents
  {
    statusLine + "\r\nContent-Length: " + Decimal(Utf8Len(contents)) + "\r\n\r\n" + contents
  }

  /** `handle_connection` from the received bytes to the response text.  It
      answers with one of the two status lines; it panics only when the chosen
      page cannot be read. */
  function HandleConnection(received: seq<byte>, fs: FileSystem): (r: Result<string>)
    requires |received| <= BufferSize
    ensures r.Err? ==> r.error == FileUnreadable(IndexPage) || r.error == FileUnreadable(NotFoundPage)
  {
    var (statusLine, filename) := SelectPage(ReceiveBuffer(received));
    var contents :- ReadToString(fs, filename);
    Ok(FormatResponse(statusLine, contents))
  }

  // ---------------------------------------------------------------------------
  // Reading a response back

  /** `s` has `pattern` at index `i`. */
  predicate MatchAt(s: string, pattern: string, i: nat)
  {
    i + |pattern| <= |s| && s[i..i + |pattern|] == pattern
  }

  /** The index of the first occurrence of `pattern` in `s`. */
  function Find(s: string, pattern: string): (k: Option<nat>)
    ensures k.Some? ==> MatchAt(s, pattern, k.value)
    ensures k.Some? ==> forall i | 0 <= i < k.value :: !MatchAt(s, pattern, i)
    ensures k.None? ==> forall i | 0 <= i <= |s| :: !MatchAt(s, pattern, i)
  {
    if |s| < |pattern| then None
    else if pattern <= s then Some(0)
    else
      match Find(s[1..], pattern)
      case None =>
        assert forall i | 1 <= i <= |s| :: MatchAt(s, pattern, i) ==> MatchAt(s[1..], pattern, i - 1);
        None
      case Some(k) =>
        assert forall i | 1 <= i <= k :: MatchAt(s, pattern, i) ==> MatchAt(s[1..], pattern, i - 1);
        Some(k + 1)
  }

  /** A response as a client reads it: the status line, the value of the one
      header field, and the body. */
  datatype Message = Message(statusLine: string, contentLength: nat, body: string)

  /** Splits a response at its first blank line into the header section and the
      body, splits the header section at its first line break into the status line
      and the header field, and reads the field's Content-Length value. */
  function ParseResponse(response: string): (m: Option<Message>)
  {
    var blank :- Find(response, "\r\n\r\n");
    var head := response[..blank];
    var lineBreak :- Find(head, "\r\n");
    var field := head[lineBreak + 2..];
    if "Content-Length: " <= field then
      var length :- ParseDecimal(field[|"Content-Length: "|..]);
      Some(Message(head[..lineBreak], length, response[blank + 4..]))
    else
      None
  }

  // ---------------------------------------------------------------------------
  // Properties

  /** The buffer starts with the root request line exactly when the received bytes
      do: the zeros after a short read cannot complete it. */
  lemma ReceiveBufferStartsWith(received: seq<byte>)
    requires |received| <= BufferSize
    ensures RootRequestLine <= ReceiveBuffer(received) <==> RootRequestLine <= received
  {
    var buffer := ReceiveBuffer(received);
    var n := |RootRequestLine|;
    if |received| < n {
      assert buffer[|received|] == 0;
      assert RootRequestLine[|received|] != 0;
    } else {
      assert buffer[..n] == received[..n];
    }
  }

  /** Index page with the 200 status exactly for requests that begin with
      "GET / HTTP/1.1\r\n"; every other request, including a shorter one, gets
      the 404 page with the 404 status. */
  lemma SelectPageOfReceived(received: seq<byte>)
    requires |received| <= BufferSize
    ensures SelectPage(ReceiveBuffer(received))
         == if RootRequestLine <= received then (OkStatusLine, IndexPage)
            else (NotFoundStatusLine, NotFoundPage)
  {
    ReceiveBufferStartsWith(received);
  }

  /** Only the characters of the status line can be a '\r' before the header field
      value ends; no blank line and no line break occurs earlier than intended. */
  lemma FormatResponseRoundTrip(statusLine: string, contents: string)
    requires '\r' !in statusLine
    ensures ParseResponse(FormatResponse(statusLine, contents))
         == Some(Message(statusLine, Utf8Len(contents), contents))
  {
    var digits := Decimal(Utf8Len(contents));
    ParseDecimalOfDecimal(Utf8Len(contents));
    ParseAssembledResponse(statusLine, digits, Utf8Len(contents), contents);
  }

  /** A status line, one Content-Length field whose digits read as `n`, a blank
      line and a body read back as those three parts. */
  lemma ParseAssembledResponse(statusLine: string, digits: string, n: nat, body: string)
    requires '\r' !in statusLine
    requires ParseDecimal(digits) == Some(n)
    ensures ParseResponse(statusLine + "\r\nContent-Length: " + digits + "\r\n\r\n" + body)
         == Some(Message(statusLine, n, body))
  {
    var field := "Content-Length: " + digits;
    var head := statusLine + "\r\n" + field;
    var response := statusLine + "\r\nContent-Length: " + digits + "\r\n\r\n" + body;
    assert Find(response, "\r\n\r\n") == Some(|head|)
        && response[..|head|] == head && response[|head| + 4..] == body by {
      assert response == head + "\r\n\r\n" + body;
      HeaderSectionHasNoBlankLine(statusLine, digits);
      FindBlankLine(head, body);
    }
    assert Find(head, "\r\n") == Some(|statusLine|)
        && head[..|statusLine|] == statusLine && head[|statusLine| + 2..] == field by {
      FindLineBreak(statusLine, field);
    }
    assert "Content-Length: " <= field && field[16..] == digits;
  }

  /** The only '\r' of the header section is the one that ends the status line,
      and a field name follows it. */
  lemma HeaderSectionHasNoBlankLine(statusLine: string, digits: string)
    requires '\r' !in statusLine
    requires forall i | 0 <= i < |digits| :: IsDigit(digits[i])
    ensures var head := statusLine + "\r\n" + ("Content-Length: " + digits);
      forall i | 0 <= i < |head| && head[i] == '\r' :: i + 2 < |head| && head[i + 2] != '\r'
  {
    var n := |statusLine|;
    var head := statusLine + "\r\n" + ("Content-Length: " + digits);
    forall i | 0 <= i < |head| && i != n ensures head[i] != '\r' {
      if i < n {
        assert head[i] == statusLine[i] && statusLine[i] in statusLine;
      } else if i == n + 1 {
        assert head[i] == '\n';
      } else if i < n + 18 {
        assert head[i] == "Content-Length: "[i - n - 2];
      } else {
        assert head[i] == digits[i - n - 18];
      }
    }
    assert head[n + 2] == 'C';
  }

  lemma FindBlankLine(head: string, body: string)
    requires forall i | 0 <= i < |head| && head[i] == '\r' :: i + 2 < |head| && head[i + 2] != '\r'
    ensures Find(head + "\r\n\r\n" + body, "\r\n\r\n") == Some(|head|)
  {
    var s := head + "\r\n\r\n" + body;
    assert MatchAt(s, "\r\n\r\n", |head|) by {
      assert s[|head|..|head| + 4] == "\r\n\r\n";
    }
    forall i | 0 <= i < |head| ensures !MatchAt(s, "\r\n\r\n", i) {
      assert s[i] == head[i];
      if i + 2 < |head| {
        assert s[i + 2] == head[i + 2];
      }
    }
  }

  lemma FindLineBreak(line: string, rest: string)
    requires '\r' !in line
    ensures Find(line + "\r\n" + rest, "\r\n") == Some(|line|)
  {
    var s := line + "\r\n" + rest;
    assert MatchAt(s, "\r\n", |line|) by {
      assert s[|line|..|line| + 2] == "\r\n";
    }
    forall i | 0 <= i < |line| ensures !MatchAt(s, "\r\n", i) {
      assert s[i] == line[i];
    }
  }

  /** The first line of the response, as `lines()` reads it, is the status line. */
  lemma FormatResponseFirstLine(statusLine: string, contents: string)
    requires '\r' !in statusLine && '\n' !in statusLine
    ensures FirstLine(FormatResponse(statusLine, contents)) == Some(statusLine)
  {
    var tail := "Content-Length: " + Decimal(Utf8Len(contents)) + "\r\n\r\n" + contents;
    assert FormatResponse(statusLine, contents) == (statusLine + "\r") + "\n" + tail;
    assert '\n' !in statusLine + "\r";
    FirstLineOf(statusLine + "\r", tail);
    assert (statusLine + "\r")[..|statusLine|] == statusLine;
  }

  /** What `handle_connection` writes, read back: the status line chosen by the
      request's first bytes, a Content-Length equal to the UTF-8 byte length of
      the body that follows the blank line, and the chosen page's text as that
      body.  It panics exactly when the chosen page cannot be read. */
  lemma HandleConnectionResponse(received: seq<byte>, fs: FileSystem)
    requires |received| <= BufferSize
    ensures var (statusLine, page) := if RootRequestLine <= received then (OkStatusLine, IndexPage)
                                      else (NotFoundStatusLine, NotFoundPage);
      match HandleConnection(received, fs)
      case Err(e) => e == FileUnreadable(page) && !(page in fs && fs[page].Some?)
      case Ok(response) =>
        && page in fs && fs[page].Some?
        && ParseResponse(response) == Some(Message(statusLine, Utf8Len(fs[page].value), fs[page].value))
  {
    SelectPageOfReceived(received);
    var (statusLine, page) := SelectPage(ReceiveBuffer(received));
    if page in fs && fs[page].Some? {
      FormatResponseRoundTrip(statusLine, fs[page].value);
    }
  }
}
