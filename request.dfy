/** src/request.rs: `parse_request`, a loose reading of the request line of
    section 3 of RFC 9112 (method SP request-target SP HTTP-version).  Only the
    first line of the request is read; any run of whitespace separates its tokens;
    the first token is the method, the second the path, and the rest (the
    HTTP-version among them) is ignored. */
module Request {
  import opened Outcomes
  import opened Text

  /** `parse_request`: `[method, path]`, the first two tokens of the first line.
      It panics on an empty request (there is no first line) and on a first line
      with fewer than two tokens. */
  function ParseRequest(request: string): (r: Result<seq<string>>)
    ensures r == Err(NoRequestLine) <==> request == []
    ensures r.Ok? ==> |r.value| == 2 && IsToken(r.value[0]) && IsToken(r.value[1])
  {
    match FirstLine(request)
    case None => Err(NoRequestLine)
    case Some(line) => ParseRequestLine(line)
  }

  /** Lines 5-9 of `parse_request`, on the request line itself. */
  function ParseRequestLine(line: string): (r: Result<seq<string>>)
    ensures r.Err? ==> r.error == MissingMethod || r.error == MissingPath
    ensures r.Ok? ==> |r.value| == 2 && IsToken(r.value[0]) && IsToken(r.value[1])
  {
    var first := NextToken(line);
    if first.None? then Err(MissingMethod)
    else
      var second := NextToken(first.value.1);
      if second.None? then Err(MissingPath)
      else Ok([first.value.0, second.value.0])
  }

  /** The result, against the reference tokenisation of the first line: the first
      two tokens when there are at least two, and otherwise the panic of the
      `unwrap()` that finds a token missing. */
  lemma ParseRequestIsFirstTwoTokens(request: string)
    requires request != []
    ensures var tokens := Tokens(FirstLine(request).value);
      ParseRequest(request)
        == if |tokens| == 0 then Err(MissingMethod)
           else if |tokens| == 1 then Err(MissingPath)
           else Ok(tokens[..2])
  {
    var line := FirstLine(request).value;
    assert ParseRequest(request) == ParseRequestLine(line);
    var tokens := Tokens(line);
    var first := NextToken(line);
    if first.None? {
      assert tokens == [] by { NextTokenIsFirstToken(line); }
    } else {
      var after := first.value.1;
      assert tokens == [first.value.0] + Tokens(after) by { NextTokenIsFirstToken(line); }
      var second := NextToken(after);
      if second.None? {
        assert Tokens(after) == [] by { NextTokenIsFirstToken(after); }
      } else {
        assert Tokens(after) == [second.value.0] + Tokens(second.value.1) by {
          NextTokenIsFirstToken(after);
        }
        assert tokens[..2] == [first.value.0, second.value.0];
      }
    }
  }

  /** Only the first line matters: whatever follows its terminator is never read. */
  lemma ParseRequestReadsFirstLineOnly(line: string, tail1: string, tail2: string)
    requires '\n' !in line
    ensures ParseRequest(line + "\n" + tail1) == ParseRequest(line + "\n" + tail2)
  {
    FirstLineOf(line, tail1);
    FirstLineOf(line, tail2);
  }

  /** Conversely to the contract of `ParseRequest`: a first line made of optional
      whitespace, a method, whitespace, a path and anything that starts with
      whitespace parses to exactly that method and path, whether or not the line
      is terminated. */
  lemma ParseRequestOfLine(w1: string, httpMethod: string, w2: string, path: string, rest: string, tail: string)
    requires AllWhitespace(w1) && IsToken(httpMethod)
    requires |w2| > 0 && AllWhitespace(w2) && IsToken(path) && EndsToken(rest)
    requires '\n' !in w1 + httpMethod + w2 + path + rest
    ensures ParseRequest(w1 + httpMethod + w2 + path + rest) == Ok([httpMethod, path])
    ensures ParseRequest(w1 + httpMethod + w2 + path + rest + "\n" + tail) == Ok([httpMethod, path])
  {
    FirstLineOf(w1 + httpMethod + w2 + path + rest, tail);
    LineParses(w1, httpMethod, w2, path, rest);
  }

  lemma LineParses(w1: string, httpMethod: string, w2: string, path: string, rest: string)
    requires AllWhitespace(w1) && IsToken(httpMethod)
    requires |w2| > 0 && AllWhitespace(w2) && IsToken(path) && EndsToken(rest)
    ensures var line := w1 + httpMethod + w2 + path + rest;
      && ParseRequestLine(line) == Ok([httpMethod, path])
      && ParseRequestLine(TrimCarriageReturn(line)) == Ok([httpMethod, path])
  {
    var line := w1 + httpMethod + w2 + path + rest;
    FirstLineParses(w1, httpMethod, w2, path, rest);
    if line[|line| - 1] == '\r' {
      assert TrimCarriageReturn(line) == line[..|line| - 1];
      TrimmedLineParses(w1, httpMethod, w2, path, rest);
    } else {
      assert TrimCarriageReturn(line) == line;
    }
  }

  lemma FirstLineParses(w1: string, httpMethod: string, w2: string, path: string, rest: string)
    requires AllWhitespace(w1) && IsToken(httpMethod)
    requires |w2| > 0 && AllWhitespace(w2) && IsToken(path) && EndsToken(rest)
    ensures ParseRequestLine(w1 + httpMethod + w2 + path + rest) == Ok([httpMethod, path])
  {
    assert w1 + httpMethod + w2 + path + rest == w1 + httpMethod + (w2 + path + rest);
    assert (w2 + path + rest)[0] == w2[0];
    NextTokenOf(w1, httpMethod, w2 + path + rest);
    NextTokenOf(w2, path, rest);
  }

  /** The '\r' that `lines()` removes from a "\r\n" can only come from the
      whitespace after the path, so removing it leaves the same two tokens. */
  lemma TrimmedLineParses(w1: string, httpMethod: string, w2: string, path: string, rest: string)
    requires AllWhitespace(w1) && IsToken(httpMethod)
    requires |w2| > 0 && AllWhitespace(w2) && IsToken(path) && EndsToken(rest)
    requires var line := w1 + httpMethod + w2 + path + rest; line[|line| - 1] == '\r'
    ensures var line := w1 + httpMethod + w2 + path + rest;
      ParseRequestLine(line[..|line| - 1]) == Ok([httpMethod, path])
  {
    CarriageReturnEndsRest(w1, httpMethod, w2, path, rest);
    var rest' := rest[..|rest| - 1];
    assert EndsToken(rest') by {
      assert rest' == [] || rest'[0] == rest[0];
    }
    FirstLineParses(w1, httpMethod, w2, path, rest');
    ParsesWithoutLastChar(w1, httpMethod, w2, path, rest);
  }

  lemma CarriageReturnEndsRest(w1: string, httpMethod: string, w2: string, path: string, rest: string)
    requires IsToken(path)
    requires var line := w1 + httpMethod + w2 + path + rest; line[|line| - 1] == '\r'
    ensures rest != []
  {
  }

  lemma ParsesWithoutLastChar(w1: string, httpMethod: string, w2: string, path: string, rest: string)
    requires rest != []
    requires ParseRequestLine(w1 + httpMethod + w2 + path + rest[..|rest| - 1]) == Ok([httpMethod, path])
    ensures var line := w1 + httpMethod + w2 + path + rest;
      ParseRequestLine(line[..|line| - 1]) == Ok([httpMethod, path])
  {
    DropLastOfConcat(w1 + httpMethod + w2 + path, rest);
  }

  lemma DropLastOfConcat(front: string, rest: string)
    requires rest != []
    ensures (front + rest)[..|front + rest| - 1] == front + rest[..|rest| - 1]
  {
  }

  /** Leading and repeated whitespace change nothing: "  GET   /x" parses as
      "GET /x" does. */
  lemma ParseRequestIgnoresSpacing(w1: string, httpMethod: string, w2: string, path: string, rest: string)
    requires AllWhitespace(w1) && IsToken(httpMethod)
    requires |w2| > 0 && AllWhitespace(w2) && IsToken(path) && EndsToken(rest)
    requires '\n' !in w1 + httpMethod + w2 + path + rest
    ensures ParseRequest(w1 + httpMethod + w2 + path + rest) == ParseRequest(httpMethod + " " + path)
  {
    ParseRequestOfLine(w1, httpMethod, w2, path, rest, "");
    ParseRequestOfSingleSpaced(httpMethod, path);
  }

  lemma ParseRequestOfSingleSpaced(httpMethod: string, path: string)
    requires IsToken(httpMethod) && IsToken(path)
    ensures ParseRequest(httpMethod + " " + path) == Ok([httpMethod, path])
  {
    assert [] + httpMethod + " " + path + [] == httpMethod + " " + path;
    assert AllWhitespace(" ");
    ParseRequestOfLine([], httpMethod, " ", path, [], "");
  }

  /** The request line a browser sends for the root page: its method and path. */
  lemma ParseRequestOfRootRequest()
    ensures ParseRequest("GET / HTTP/1.1\r\n") == Ok(["GET", "/"])
  {
    assert "GET / HTTP/1.1\r\n" == [] + "GET" + " " + "/" + " HTTP/1.1\r" + "\n" + [];
    ParseRequestOfLine([], "GET", " ", "/", " HTTP/1.1\r", []);
  }
}
