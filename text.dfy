/** The parts of Rust's `str` and `char` that the HTTP layer relies on, over
    strings of Unicode scalar values: whitespace classification, `lines()`,
    `split_whitespace()`, the UTF-8 byte length `len()`, and the decimal
    rendering of an unsigned integer by `format!("{}", n)`. */
module Text {
  import opened Outcomes

  /** `char::is_whitespace`: the characters with the Unicode White_Space property. */
  predicate IsWhitespace(c: char)
  {
    || ('\t' <= c <= '\r')
    || c == ' '
    || c == '\U{85}'
    || c == '\U{A0}'
    || c == '\U{1680}'
    || ('\U{2000}' <= c <= '\U{200A}')
    || c == '\U{2028}'
    || c == '\U{2029}'
    || c == '\U{202F}'
    || c == '\U{205F}'
    || c == '\U{3000}'
  }

  predicate AllWhitespace(s: string)
  {
    forall i | 0 <= i < |s| :: IsWhitespace(s[i])
  }

  /** A token of `split_whitespace`: a non-empty run of non-whitespace characters. */
  predicate IsToken(s: string)
  {
    |s| > 0 && forall i | 0 <= i < |s| :: !IsWhitespace(s[i])
  }

  /** What may follow a token: nothing, or whitespace that ends it. */
  predicate EndsToken(rest: string)
  {
    rest == [] || IsWhitespace(rest[0])
  }

  // ---------------------------------------------------------------------------
  // lines()

  /** Index of the first '\n' of `s`, or `|s|` when there is none. */
  function NewlineIndex(s: string): (k: nat)
    ensures k <= |s|
    ensures k < |s| ==> s[k] == '\n'
    ensures forall i | 0 <= i < k :: s[i] != '\n'
  {
    if s == [] || s[0] == '\n' then 0 else 1 + NewlineIndex(s[1..])
  }

  /** A line without the '\r' of its "\r\n" terminator, if it has one. */
  function TrimCarriageReturn(line: string): string
  {
    if line != [] && line[|line| - 1] == '\r' then line[..|line| - 1] else line
  }

  /** `s.lines().next()`: the text before the first "\n" (without the '\r' of a
      "\r\n"), or the whole of `s` when it has no "\n"; nothing when `s` is empty. */
  function FirstLine(s: string): (line: Option<string>)
    ensures line.None? <==> s == []
    ensures line.Some? ==> |line.value| <= |s|
  {
    if s == [] then None
    else
      var k := NewlineIndex(s);
      if k == |s| then Some(s) else Some(TrimCarriageReturn(s[..k]))
  }

  /** A line followed by its terminator and anything at all: only the line is the
      first line, with a trailing '\r' removed; an unterminated line is its own
      first line. */
  lemma FirstLineOf(line: string, tail: string)
    requires '\n' !in line
    ensures FirstLine(line + "\n" + tail) == Some(TrimCarriageReturn(line))
    ensures line != [] ==> FirstLine(line) == Some(line)
  {
    var s := line + "\n" + tail;
    assert s[|line|] == '\n';
    assert NewlineIndex(s) == |line|;
    assert s[..|line|] == line;
  }

  // ---------------------------------------------------------------------------
  // split_whitespace()

  /** Length of the run of whitespace characters that `s` starts with. */
  function WhitespaceLength(s: string): (n: nat)
    ensures n <= |s|
    ensures forall i | 0 <= i < n :: IsWhitespace(s[i])
    ensures n == |s| || !IsWhitespace(s[n])
  {
    if s == [] || !IsWhitespace(s[0]) then 0 else 1 + WhitespaceLength(s[1..])
  }

  /** Length of the run of non-whitespace characters that `s` starts with. */
  function WordLength(s: string): (n: nat)
    ensures n <= |s|
    ensures forall i | 0 <= i < n :: !IsWhitespace(s[i])
    ensures EndsToken(s[n..])
  {
    if s == [] || IsWhitespace(s[0]) then 0 else 1 + WordLength(s[1..])
  }

  /** One step of the `split_whitespace()` iterator: the first token of `s` and the
      text after it, or nothing when `s` is all whitespace. */
  function NextToken(s: string): (t: Option<(string, string)>)
    ensures t.None? <==> AllWhitespace(s)
    ensures t.Some? ==> IsToken(t.value.0) && EndsToken(t.value.1)
    ensures t.Some? ==> |t.value.0| + |t.value.1| <= |s|
  {
    var k := WhitespaceLength(s);
    if k == |s| then None
    else
      var r := s[k..];
      var n := WordLength(r);
      Some((r[..n], r[n..]))
  }

  /** When there is a token, `s` is some whitespace, the token, and the rest, in
      that order. */
  lemma NextTokenSplits(s: string)
    requires NextToken(s).Some?
    ensures var (token, rest) := NextToken(s).value;
      var w := s[..|s| - |token| - |rest|];
      AllWhitespace(w) && s == w + token + rest
  {
    var k := WhitespaceLength(s);
    var r := s[k..];
    var n := WordLength(r);
    assert s == s[..k] + r[..n] + r[n..];
  }

  /** Reference definition of `split_whitespace()`, character by character from the
      end: the maximal runs of non-whitespace characters, in order. */
  function Tokens(s: string): (ts: seq<string>)
    ensures s != [] && !IsWhitespace(s[0]) ==> |ts| > 0
  {
    if s == [] then []
    else
      var ts := Tokens(s[1..]);
      if IsWhitespace(s[0]) then ts
      else if |s| > 1 && !IsWhitespace(s[1]) then [[s[0]] + ts[0]] + ts[1..]
      else [[s[0]]] + ts
  }

  lemma {:induction false} TokensAfterWhitespace(w: string, s: string)
    requires AllWhitespace(w)
    ensures Tokens(w + s) == Tokens(s)
  {
    if w == [] {
      assert w + s == s;
    } else {
      assert (w + s)[0] == w[0];
      assert (w + s)[1..] == w[1..] + s;
      assert Tokens(w + s) == Tokens(w[1..] + s);
      TokensAfterWhitespace(w[1..], s);
    }
  }

  lemma {:induction false} TokensOfToken(token: string, rest: string)
    requires IsToken(token) && EndsToken(rest)
    ensures Tokens(token + rest) == [token] + Tokens(rest)
  {
    var s := token + rest;
    assert s[0] == token[0] && !IsWhitespace(s[0]);
    assert s[1..] == token[1..] + rest;
    if |token| > 1 {
      TokensOfToken(token[1..], rest);
      var ts := Tokens(s[1..]);
      assert ts[0] == token[1..] && ts[1..] == Tokens(rest);
      assert s[1] == token[1];
      assert [s[0]] + token[1..] == token;
    } else {
      assert s[1..] == rest && token == [s[0]];
      assert |s| > 1 ==> s[1] == rest[0];
    }
  }

  /** The iterator step agrees with the reference: it yields the first token of
      `Tokens(s)` and leaves exactly the others. */
  lemma NextTokenIsFirstToken(s: string)
    ensures NextToken(s).None? ==> Tokens(s) == []
    ensures NextToken(s).Some? ==>
      Tokens(s) == [NextToken(s).value.0] + Tokens(NextToken(s).value.1)
  {
    var t := NextToken(s);
    if t.None? {
      assert s + [] == s;
      TokensAfterWhitespace(s, []);
    } else {
      var token, rest := t.value.0, t.value.1;
      var w := s[..|s| - |token| - |rest|];
      NextTokenSplits(s);
      assert s == w + (token + rest);
      TokensAfterWhitespace(w, token + rest);
      TokensOfToken(token, rest);
    }
  }

  /** The first token is determined by the text alone: any way of writing `s` as
      whitespace, a token and what ends it is the one `NextToken` finds. */
  lemma {:induction false} NextTokenOf(w: string, token: string, rest: string)
    requires AllWhitespace(w) && IsToken(token) && EndsToken(rest)
    ensures NextToken(w + token + rest) == Some((token, rest))
  {
    WhitespaceLengthOf(w, token + rest);
    assert w + token + rest == w + (token + rest);
    WordLengthOf(token, rest);
    assert (token + rest)[..|token|] == token;
    assert (token + rest)[|token|..] == rest;
  }

  lemma {:induction false} WhitespaceLengthOf(w: string, s: string)
    requires AllWhitespace(w) && (s == [] || !IsWhitespace(s[0]))
    ensures WhitespaceLength(w + s) == |w|
  {
    if w == [] {
      assert w + s == s;
    } else {
      assert (w + s)[1..] == w[1..] + s;
      WhitespaceLengthOf(w[1..], s);
    }
  }

  lemma {:induction false} WordLengthOf(token: string, rest: string)
    requires IsToken(token) && EndsToken(rest)
    ensures WordLength(token + rest) == |token|
  {
    assert (token + rest)[1..] == token[1..] + rest;
    if |token| > 1 {
      WordLengthOf(token[1..], rest);
    } else {
      assert (token + rest)[1..] == rest;
    }
  }

  // ---------------------------------------------------------------------------
  // len()

  /** Number of bytes the UTF-8 encoding of `c` takes. */
  function CharUtf8Len(c: char): (n: nat)
    ensures 1 <= n <= 4
    ensures n == 1 <==> c as int < 0x80
  {
    if c as int < 0x80 then 1
    else if c as int < 0x800 then 2
    else if c as int < 0x1_0000 then 3
    else 4
  }

  predicate IsAscii(s: string)
  {
    forall i | 0 <= i < |s| :: s[i] as int < 0x80
  }

  /** `str::len()`: the length of the UTF-8 encoding of `s`, in bytes.  It is at
      least the number of characters, at most four times it, and equal to it
      exactly when every character is ASCII. */
  function Utf8Len(s: string): (n: nat)
    ensures |s| <= n <= 4 * |s|
    ensures n == |s| <==> IsAscii(s)
  {
    if s == [] then 0
    else
      var n := CharUtf8Len(s[0]) + Utf8Len(s[1..]);
      assert IsAscii(s) <==> s[0] as int < 0x80 && IsAscii(s[1..]) by {
        if s[0] as int < 0x80 && IsAscii(s[1..]) {
          forall i | 0 <= i < |s| ensures s[i] as int < 0x80 {
            if i > 0 { assert s[i] == s[1..][i - 1]; }
          }
        }
      }
      n
  }

  // ---------------------------------------------------------------------------
  // format!("{}", n) for an unsigned integer

  predicate IsDigit(c: char)
  {
    '0' <= c <= '9'
  }

  function DigitChar(d: nat): (c: char)
    requires d < 10
    ensures IsDigit(c)
  {
    ('0' as int + d) as char
  }

  function DigitValue(c: char): (d: nat)
    requires IsDigit(c)
    ensures d < 10 && DigitChar(d) == c
  {
    c as int - '0' as int
  }

  /** The decimal numeral of `n`: digits only, never empty, and with no leading
      zero unless the numeral is "0" itself. */
  function Decimal(n: nat): (d: string)
    ensures |d| > 0
    ensures forall i | 0 <= i < |d| :: IsDigit(d[i])
    ensures d[0] == '0' ==> n == 0 && |d| == 1
  {
    if n < 10 then [DigitChar(n)] else Decimal(n / 10) + [DigitChar(n % 10)]
  }

  /** Reads a decimal numeral back: defined exactly on non-empty strings of digits. */
  function ParseDecimal(d: string): (n: Option<nat>)
    ensures n.Some? <==> |d| > 0 && forall i | 0 <= i < |d| :: IsDigit(d[i])
  {
    if d == [] || !IsDigit(d[|d| - 1]) then None
    else if |d| == 1 then Some(DigitValue(d[0]))
    else
      match ParseDecimal(d[..|d| - 1])
      case None =>
        assert !IsDigit(d[..|d| - 1][|d[..|d| - 1]| - 1]) || exists i | 0 <= i < |d| - 1 :: !IsDigit(d[i]);
        None
      case Some(m) => Some(10 * m + DigitValue(d[|d| - 1]))
  }

  /** Reading back the numeral `format!` writes gives the number. */
  lemma {:induction false} ParseDecimalOfDecimal(n: nat)
    ensures ParseDecimal(Decimal(n)) == Some(n)
  {
    if n >= 10 {
      var d := Decimal(n);
      ParseDecimalOfDecimal(n / 10);
      assert d[..|d| - 1] == Decimal(n / 10);
      assert DigitValue(d[|d| - 1]) == n % 10;
    }
  }

  /** The numeral `format!` writes is the only one without a leading zero that
      reads as `n`: a Content-Length value read back determines its digits. */
  lemma {:induction false} CanonicalDecimal(d: string, n: nat)
    requires ParseDecimal(d) == Some(n)
    requires d[0] == '0' ==> |d| == 1
    ensures d == Decimal(n)
  {
    if |d| == 1 {
      assert DigitChar(DigitValue(d[0])) == d[0];
    } else {
      var prefix := d[..|d| - 1];
      var m := ParseDecimal(prefix).value;
      var v := DigitValue(d[|d| - 1]);
      assert prefix[0] == d[0];
      CanonicalDecimal(prefix, m);
      assert m != 0;
      assert n == 10 * m + v && v < 10;
      assert n / 10 == m && n % 10 == v;
      assert d == prefix + [d[|d| - 1]];
    }
  }
}
