/** src/response.rs: `build_response`, which routes a request to a file and
    prefixes what it serves with a status line (section 4 of RFC 9112) and the
    blank line that ends the (empty) header section.

    The root request, method "GET" and path "/", is served from
    `pages/index.html`; every other request is served from its path without the
    leading byte, whatever its method.  A file that does not exist is answered
    with a fixed 404 page. */
module Response {
  import opened Outcomes
  import opened Text
  import opened Files
  import opened Request

  const OkStatus: string := "HTTP/1.1 200 OK\r\n\r\n"
  const NotFoundStatus: string := "HTTP/1.1 404 NOT FOUND\r\n\r\n"
  const NotFoundBody: string := "404 Not Found"
  /** Line 13 names the index page itself; src/main.rs repeats the name in its
      own code, and `Server.IndexPage` models that occurrence. */
  const IndexPage: string := "pages/index.html"

  /** Which file a request consults (lines 12-13 and 19-20).  `&path[1..]` slices
      at byte 1, which panics unless the path's first character is a one-byte
      (ASCII) character.  Outside the root request the file is what remains of
      the path once its first byte is dropped: for a path that starts with '/',
      the path without its leading '/'.  An empty path has no byte 1 and panics
      at the same slice. */
  function ConsultedFile(httpMethod: string, path: string): (file: Result<string>)
    ensures httpMethod == "GET" && path == "/" ==> file == Ok(IndexPage)
    ensures file.Err? ==> file.error == PathSliceNotCharBoundary
    ensures !(httpMethod == "GET" && path == "/") ==>
      (file.Ok? <==> |path| > 0 && Utf8Len(path[..1]) == 1)
    ensures !(httpMethod == "GET" && path == "/") && file.Ok? ==>
      && path == [path[0]] + file.value
      && Utf8Len(file.value) + 1 == Utf8Len(path)
    ensures !(httpMethod == "GET" && path == "/") && |path| > 0 && path[0] == '/' ==>
      file.Ok? && path == "/" + file.value
  {
    if httpMethod == "GET" && path == "/" then Ok(IndexPage)
    else if path == [] then Err(PathSliceNotCharBoundary)
    else if CharUtf8Len(path[0]) == 1 then
      assert Utf8Len(path[..1]) == CharUtf8Len(path[0]) by {
        assert path[..1][1..] == [];
      }
      assert path == [path[0]] + path[1..];
      Ok(path[1..])
    else
      assert Utf8Len(path[..1]) == CharUtf8Len(path[0]) by {
        assert path[..1][1..] == [];
      }
      Err(PathSliceNotCharBoundary)
  }

  /** The `(status_line, contents)` pair of lines 14-18 and 21-25: the 200 status
      line with the file's text for an existing file, the 404 status line with the
      fixed page for a missing one, and a panic for a file that cannot be read. */
  function Serve(fs: FileSystem, file: string): (served: Result<(string, string)>)
    ensures served.Err? <==> file in fs && fs[file].None?
    ensures served.Err? ==> served.error == FileUnreadable(file)
    ensures served.Ok? ==> (served.value.0 == OkStatus <==> file in fs)
    ensures served.Ok? && served.value.0 == OkStatus ==> fs[file] == Some(served.value.1)
    ensures served.Ok? && served.value.0 != OkStatus ==> served.value == (NotFoundStatus, NotFoundBody)
  {
    if IsFile(fs, file) then
      var contents :- ReadToString(fs, file);
      Ok((OkStatus, contents))
    else
      Ok((NotFoundStatus, NotFoundBody))
  }

  /** `build_response`: the status line followed by the body.  A response starts
      with exactly one of the two status lines. */
  function BuildResponse(request: string, fs: FileSystem): (r: Result<string>)
    ensures r.Ok? ==> (OkStatus <= r.value <==> !(NotFoundStatus <= r.value))
  {
    var parts :- ParseRequest(request);
    var file :- ConsultedFile(parts[0], parts[1]);
    var served :- Serve(fs, file);
    StatusLinesDiffer(served.1);
    Ok(served.0 + served.1)
  }

  /** What serving `file` answers: the file's text after the 200 status line when
      it is a regular file that reads as text, a panic when it is a file that does
      not, and the fixed 404 page when it is not a file at all.  This states the
      whole response by cases on the filesystem, independently of how `Serve` and
      `BuildResponse` compute it; the lemmas below connect the two. */
  ghost predicate Serves(fs: FileSystem, file: string, r: Result<string>)
  {
    if file !in fs then r == Ok(NotFoundStatus + NotFoundBody)
    else if fs[file].None? then r == Err(FileUnreadable(file))
    else r == Ok(OkStatus + fs[file].value)
  }

  /** Neither status line is a prefix of a response that starts with the other. */
  lemma StatusLinesDiffer(body: string)
    ensures !(OkStatus <= NotFoundStatus + body)
    ensures !(NotFoundStatus <= OkStatus + body)
  {
    assert OkStatus[9] != (NotFoundStatus + body)[9];
    assert NotFoundStatus[9] != (OkStatus + body)[9];
  }

  /** The root request is served from `pages/index.html`. */
  lemma BuildResponseOfRoot(request: string, fs: FileSystem)
    requires ParseRequest(request) == Ok(["GET", "/"])
    ensures Serves(fs, IndexPage, BuildResponse(request, fs))
  {
  }

  /** Every other request is served from its path without the first character,
      when that character is ASCII; `/` with a method other than GET thus
      consults the empty path. */
  lemma BuildResponseOfPath(request: string, fs: FileSystem, httpMethod: string, path: string)
    requires ParseRequest(request) == Ok([httpMethod, path])
    requires !(httpMethod == "GET" && path == "/")
    requires path[0] as int < 0x80
    ensures Serves(fs, path[1..], BuildResponse(request, fs))
  {
  }

  /** A path whose first character takes more than one byte in UTF-8 makes the
      slice `&path[1..]` panic. */
  lemma BuildResponseOfNonAsciiPath(request: string, fs: FileSystem, httpMethod: string, path: string)
    requires ParseRequest(request) == Ok([httpMethod, path])
    requires path[0] as int >= 0x80
    ensures BuildResponse(request, fs) == Err(PathSliceNotCharBoundary)
  {
  }

  /** A request that `parse_request` rejects fails the same way here. */
  lemma BuildResponseOfUnparsable(request: string, fs: FileSystem)
    requires ParseRequest(request).Err?
    ensures BuildResponse(request, fs) == Err(ParseRequest(request).error)
  {
  }

  /** Apart from the root request `GET /` the method is never looked at: two
      requests for the same path get the same response, even for the path "/"
      when neither method is GET. */
  lemma BuildResponseIgnoresMethod(request1: string, request2: string, fs: FileSystem,
                                   method1: string, method2: string, path: string)
    requires ParseRequest(request1) == Ok([method1, path])
    requires ParseRequest(request2) == Ok([method2, path])
    requires !(method1 == "GET" && path == "/") && !(method2 == "GET" && path == "/")
    ensures BuildResponse(request1, fs) == BuildResponse(request2, fs)
  {
  }

  /** Splits a response into the status line (with its blank line) and the body. */
  function SplitStatus(response: string): (split: Option<(string, string)>)
    ensures split.Some? ==> split.value.0 + split.value.1 == response
  {
    if OkStatus <= response then Some((OkStatus, response[|OkStatus|..]))
    else if NotFoundStatus <= response then Some((NotFoundStatus, response[|NotFoundStatus|..]))
    else None
  }

  /** `SplitStatus` undoes the prefixing of line 28: it gives back the status line
      and the body unchanged. */
  lemma SplitStatusOfResponse(statusLine: string, body: string)
    requires statusLine == OkStatus || statusLine == NotFoundStatus
    ensures SplitStatus(statusLine + body) == Some((statusLine, body))
  {
    StatusLinesDiffer(body);
    assert (statusLine + body)[|statusLine|..] == body;
  }

  /** Every response is one of the two status lines followed by the body that was
      served: the consulted file's text after the 200 line, or the fixed text
      after the 404 line when the consulted file does not exist. */
  lemma BuildResponseSplits(request: string, fs: FileSystem)
    requires BuildResponse(request, fs).Ok?
    ensures var split := SplitStatus(BuildResponse(request, fs).value);
      var parts := ParseRequest(request).value;
      var file := ConsultedFile(parts[0], parts[1]).value;
      && split.Some?
      && (split.value.0 == NotFoundStatus ==> file !in fs && split.value.1 == NotFoundBody)
      && (split.value.0 == OkStatus ==> file in fs && fs[file] == Some(split.value.1))
  {
    var parts := ParseRequest(request).value;
    var file := ConsultedFile(parts[0], parts[1]).value;
    var served := Serve(fs, file).value;
    SplitStatusOfResponse(served.0, served.1);
    if served.0 == OkStatus {
      assert fs[file] == Some(served.1);
    }
  }
}
