// The static-file handler of the HTTP server: URL percent-decoding, the
// request-path rules and the reply it fills in.

module FileHandler {
  import opened Replies
  import opened MimeTypes

  // ---------------------------------------------------------------------------
  // Hexadecimal digits

  datatype Option<T> = None | Some(value: T)

  /** The value of a hexadecimal digit of either case. */
  function HexValue(c: char): (v: Option<nat>)
    ensures v.Some? ==> v.value < 16
  {
    if '0' <= c <= '9' then Some(c as int - '0' as int)
    else if 'a' <= c <= 'f' then Some(c as int - 'a' as int + 10)
    else if 'A' <= c <= 'F' then Some(c as int - 'A' as int + 10)
    else None
  }

  /** The characters an istream skips before a number: space, and tab, newline, vertical tab, form feed and carriage return (codes 9 to 13). */
  predicate IsSpace(c: char)
  {
    c == ' ' || 9 <= c as int <= 13
  }

  /**
   * The byte that an `int` extraction in hexadecimal from the two characters
   * after a '%' yields, cast to char: leading whitespace is skipped; a '+'
   * or '-' sign may precede the digits, and a negative value wraps modulo
   * 256; "0x" and "0X" are a prefix with no digits after it, which fails;
   * otherwise the one or two leading hex digits. Nothing when no digit is
   * read.
   */
  function HexPair(c1: char, c2: char): (v: Option<nat>)
    ensures v.Some? ==> v.value < 256
  {
    if IsSpace(c1) then HexValue(c2)
    else if c1 == '+' || c1 == '-' then
      match HexValue(c2)
      case None => None
      case Some(h) => Some(if c1 == '-' then (256 - h) % 256 else h)
    else if c1 == '0' && (c2 == 'x' || c2 == 'X') then None
    else
      match HexValue(c1)
      case None => None
      case Some(h1) =>
        match HexValue(c2)
        case None => Some(h1)
        case Some(h2) => Some(16 * h1 + h2)
  }

  /** Exactly when the extraction fails. */
  lemma HexPairFails(c1: char, c2: char)
    ensures HexPair(c1, c2).None? <==>
      ((IsSpace(c1) || c1 == '+' || c1 == '-') && HexValue(c2).None?) ||
      (c1 == '0' && (c2 == 'x' || c2 == 'X')) ||
      (!IsSpace(c1) && c1 != '+' && c1 != '-' && HexValue(c1).None?)
  {
  }

  /** The upper-case hex digit of n. */
  function HexDigit(n: nat): (c: char)
    requires n < 16
    ensures HexValue(c) == Some(n) && ('0' <= c <= '9' || 'A' <= c <= 'F')
  {
    if n < 10 then ('0' as int + n) as char else ('A' as int + n - 10) as char
  }

  // ---------------------------------------------------------------------------
  // Percent-decoding

  /** The outcome of decoding: a failure, or the output and whether a '?' stopped it. */
  datatype Decoding = Failed | Decoded(out: string, stopped: bool)

  /** Puts d in front of a decoding's output. */
  function Prepend(d: string, r: Decoding): Decoding
  {
    match r
    case Failed => Failed
    case Decoded(o, st) => Decoded(d + o, st)
  }

  /**
   * Percent-decoding as in section 2.1 of RFC 3986, with '+' as a space as
   * in application/x-www-form-urlencoded: a '%' takes the next two
   * characters as hex and fails when fewer than two remain or the first is
   * no hex digit; a '?' ends the path; anything else is copied.
   */
  function UrlDecoded(s: string): Decoding
    decreases |s|
  {
    if s == [] then Decoded([], false)
    else if s[0] == '%' then
      if |s| >= 3 then
        match HexPair(s[1], s[2])
        case None => Failed
        case Some(v) => Prepend([v as char], UrlDecoded(s[3..]))
      else Failed
    else if s[0] == '+' then Prepend([' '], UrlDecoded(s[1..]))
    else if s[0] == '?' then Decoded([], true)
    else Prepend([s[0]], UrlDecoded(s[1..]))
  }

  lemma PrependAssoc(a: string, b: string, r: Decoding)
    ensures Prepend(a, Prepend(b, r)) == Prepend(a + b, r)
  {
    if r.Decoded? {
      assert a + (b + r.out) == (a + b) + r.out;
    }
  }

  /**
   * The decoding loop: returns false on a malformed escape and otherwise
   * the decoded text up to the first '?'.
   */
  method UrlDecode(input: string) returns (ok: bool, out: string)
    ensures ok <==> UrlDecoded(input).Decoded?
    ensures ok ==> out == UrlDecoded(input).out
  {
    out := [];
    var i := 0;
    while i < |input|
      invariant 0 <= i <= |input|
      invariant UrlDecoded(input) == Prepend(out, UrlDecoded(input[i..]))
      decreases |input| - i
    {
      var rest := input[i..];
      if input[i] == '%' {
        if i + 3 <= |input| {
          var value := HexPair(input[i + 1], input[i + 2]);
          if value.Some? {
            assert rest[3..] == input[i + 3..];
            PrependAssoc(out, [value.value as char], UrlDecoded(input[i + 3..]));
            out := out + [value.value as char];
            i := i + 2;
          } else {
            return false, out;
          }
        } else {
          return false, out;
        }
      } else if input[i] == '+' {
        assert rest[1..] == input[i + 1..];
        PrependAssoc(out, [' '], UrlDecoded(input[i + 1..]));
        out := out + [' '];
      } else if input[i] == '?' {
        assert out + [] == out;
        break;
      } else {
        assert rest[1..] == input[i + 1..];
        PrependAssoc(out, [input[i]], UrlDecoded(input[i + 1..]));
        out := out + [input[i]];
      }
      i := i + 1;
    }
    if i == |input| {
      assert out + [] == out;
    }
    ok := true;
  }

  // ---------------------------------------------------------------------------
  // Properties of the decoding

  /** Decoding a text that ran to its end without a stop, then more text, decodes the two in turn. */
  lemma {:induction false} DecodeAppend(p: string, r: string)
    requires UrlDecoded(p).Decoded? && !UrlDecoded(p).stopped
    ensures UrlDecoded(p + r) == Prepend(UrlDecoded(p).out, UrlDecoded(r))
    decreases |p|
  {
    if p == [] {
      assert p + r == r;
    } else {
      var n := if p[0] == '%' then 3 else 1;
      assert (p + r)[n..] == p[n..] + r;
      DecodeAppend(p[n..], r);
      if p[0] == '%' {
        var v := HexPair(p[1], p[2]).value;
        PrependAssoc([v as char], UrlDecoded(p[n..]).out, UrlDecoded(r));
      } else if p[0] == '+' {
        PrependAssoc([' '], UrlDecoded(p[n..]).out, UrlDecoded(r));
      } else {
        PrependAssoc([p[0]], UrlDecoded(p[n..]).out, UrlDecoded(r));
      }
    }
  }

  /** Once the path decodes to its end, a '?' ends decoding: the query never reaches the output. */
  lemma QueryNeverDecoded(p: string, q: string)
    requires UrlDecoded(p).Decoded? && !UrlDecoded(p).stopped
    ensures UrlDecoded(p + "?" + q) == Decoded(UrlDecoded(p).out, true)
  {
    assert p + "?" + q == p + ("?" + q);
    DecodeAppend(p, "?" + q);
    assert UrlDecoded(p).out + [] == UrlDecoded(p).out;
  }

  /** A '%' with fewer than two characters after it makes decoding fail. */
  lemma ShortEscapeFails(p: string, t: string)
    requires UrlDecoded(p).Decoded? && !UrlDecoded(p).stopped && |t| < 2
    ensures UrlDecoded(p + "%" + t) == Failed
  {
    assert p + "%" + t == p + ("%" + t);
    DecodeAppend(p, "%" + t);
  }

  /**
   * A '%' makes decoding fail when no digit can be read after it: the next
   * character is neither a hex digit, whitespace nor a sign; or it is
   * whitespace or a sign and the one after it is no hex digit; or the two
   * are "0x" or "0X".
   */
  lemma BadEscapeFails(p: string, c1: char, c2: char, t: string)
    requires UrlDecoded(p).Decoded? && !UrlDecoded(p).stopped
    requires ((IsSpace(c1) || c1 == '+' || c1 == '-') && HexValue(c2).None?) ||
             (c1 == '0' && (c2 == 'x' || c2 == 'X')) ||
             (!IsSpace(c1) && c1 != '+' && c1 != '-' && HexValue(c1).None?)
    ensures UrlDecoded(p + ['%', c1, c2] + t) == Failed
  {
    assert p + ['%', c1, c2] + t == p + (['%', c1, c2] + t);
    DecodeAppend(p, ['%', c1, c2] + t);
  }

  /** A character outside '%', '+' and '?' decodes to itself; '+' to a space; "%hh" to the byte hh. */
  lemma SingleSteps(c: char, h1: char, h2: char)
    requires HexValue(h1).Some? && HexValue(h2).Some?
    ensures c != '%' && c != '+' && c != '?' ==> UrlDecoded([c]) == Decoded([c], false)
    ensures UrlDecoded("+") == Decoded(" ", false)
    ensures UrlDecoded(['%', h1, h2]) == Decoded([(16 * HexValue(h1).value + HexValue(h2).value) as char], false)
  {
    assert ['%', h1, h2][3..] == [];
    assert [c][1..] == [];
  }

  /**
   * Whitespace before a single hex digit is skipped, a '+' sign is dropped,
   * and a '-' sign gives the digit's negation cast to a byte: "% 5" decodes
   * to byte 5 and "%-1" to byte 255.
   */
  lemma SignedEscapes(w: char, h: char)
    requires IsSpace(w) && HexValue(h).Some?
    ensures UrlDecoded(['%', w, h]) == Decoded([HexValue(h).value as char], false)
    ensures UrlDecoded(['%', '+', h]) == Decoded([HexValue(h).value as char], false)
    ensures UrlDecoded(['%', '-', h]) == Decoded([((256 - HexValue(h).value) % 256) as char], false)
    ensures UrlDecoded("% 5") == Decoded([5 as char], false)
    ensures UrlDecoded("%-1") == Decoded([255 as char], false)
  {
    assert ['%', w, h][3..] == [] && ['%', '+', h][3..] == [] && ['%', '-', h][3..] == [];
    assert "% 5"[3..] == [] && "%-1"[3..] == [];
  }

  // ---------------------------------------------------------------------------
  // Percent-encoding, the inverse used to state the round trip

  /** The unreserved characters of section 2.3 of RFC 3986. */
  predicate Unreserved(c: char)
  {
    'A' <= c <= 'Z' || 'a' <= c <= 'z' || '0' <= c <= '9' || c == '-' || c == '.' || c == '_' || c == '~'
  }

  /** Unreserved characters as they are, every other octet as "%HH". */
  function EncodeChar(c: char): string
    requires c as int < 256
  {
    if Unreserved(c) then [c] else ['%', HexDigit(c as int / 16), HexDigit(c as int % 16)]
  }

  function PercentEncode(s: string): string
    requires forall i :: 0 <= i < |s| ==> s[i] as int < 256
  {
    if s == [] then [] else EncodeChar(s[0]) + PercentEncode(s[1..])
  }

  /** One encoded character decodes back to itself. */
  lemma EncodeCharDecodes(c: char, r: string)
    requires c as int < 256
    ensures UrlDecoded(EncodeChar(c) + r) == Prepend([c], UrlDecoded(r))
  {
    var e := EncodeChar(c);
    if Unreserved(c) {
      assert (e + r)[1..] == r;
    } else {
      assert (e + r)[3..] == r;
      assert (e + r)[1] == HexDigit(c as int / 16) && (e + r)[2] == HexDigit(c as int % 16);
      assert 16 * (c as int / 16) + c as int % 16 == c as int;
    }
  }

  /** Decoding inverts encoding: every octet string survives the round trip. */
  lemma {:induction false} DecodeEncode(s: string)
    requires forall i :: 0 <= i < |s| ==> s[i] as int < 256
    ensures UrlDecoded(PercentEncode(s)) == Decoded(s, false)
    decreases |s|
  {
    if s != [] {
      DecodeEncode(s[1..]);
      EncodeCharDecodes(s[0], PercentEncode(s[1..]));
      assert [s[0]] + s[1..] == s;
    }
  }

  // ---------------------------------------------------------------------------
  // Request paths

  /** Whether s contains "..". */
  predicate HasDotDot(s: string)
  {
    exists i :: 0 <= i < |s| - 1 && s[i] == '.' && s[i + 1] == '.'
  }

  /** The last position of c in s, if any. */
  function LastIndexOf(s: string, c: char): (r: Option<nat>)
    ensures r.Some? ==> r.value < |s| && s[r.value] == c && forall j :: r.value < j < |s| ==> s[j] != c
    ensures r.None? ==> forall j :: 0 <= j < |s| ==> s[j] != c
    decreases |s|
  {
    if s == [] then None
    else if s[|s| - 1] == c then Some(|s| - 1)
    else LastIndexOf(s[..|s| - 1], c)
  }

  /** LastIndexOf finds the position of c after which no c follows. */
  lemma {:induction false} LastIndexOfAt(s: string, c: char, k: nat)
    requires k < |s| && s[k] == c && forall j :: k < j < |s| ==> s[j] != c
    ensures LastIndexOf(s, c) == Some(k)
    decreases |s|
  {
    if k < |s| - 1 {
      LastIndexOfAt(s[..|s| - 1], c, k);
    }
  }

  /**
   * The extension of a path: the text after its last '.', provided that
   * dot comes after the last '/'; otherwise empty.
   */
  function Extension(path: string): string
  {
    match LastIndexOf(path, '.')
    case None => ""
    case Some(d) =>
      match LastIndexOf(path, '/')
      case None => path[d + 1..]
      case Some(sl) => if d > sl then path[d + 1..] else ""
  }

  /** An extension holds neither '.' nor '/'. */
  lemma ExtensionIsLastComponent(path: string)
    ensures '.' !in Extension(path) && '/' !in Extension(path)
    ensures Extension(path) != "" ==> |Extension(path)| < |path| && path[|path| - |Extension(path)| - 1] == '.'
  {
    var e := Extension(path);
    match LastIndexOf(path, '.')
    case None =>
    case Some(d) =>
      if e != "" {
        assert e == path[d + 1..];
        forall j | 0 <= j < |e| ensures e[j] != '.' && e[j] != '/' {
          assert e[j] == path[d + 1 + j];
        }
      }
  }

  /** The outcome of the path checks: a bad request, or the path to open with its extension. */
  datatype Route = BadRequest | Serve(path: string, extension: string)

  /**
   * A decoded path must be non-empty, absolute and free of ".."; a path
   * ending in '/' gets "index.html"; the extension is taken afterwards.
   */
  function RouteOf(url: string): Route
  {
    match UrlDecoded(url)
    case Failed => BadRequest
    case Decoded(p, _) =>
      if p == [] || p[0] != '/' || HasDotDot(p) then BadRequest
      else
        var path := if p[|p| - 1] == '/' then p + "index.html" else p;
        Serve(path, Extension(path))
  }

  /** A request is refused exactly when its URL fails to decode, or its path is empty, relative or holds "..". */
  lemma BadRequestExactly(url: string)
    ensures RouteOf(url) == BadRequest <==>
      UrlDecoded(url).Failed? ||
      (var p := UrlDecoded(url).out; p == [] || p[0] != '/' || HasDotDot(p))
  {
  }

  /** A served path is absolute and holds no ".." even after "index.html" is added. */
  lemma ServedPathSafe(url: string)
    requires RouteOf(url).Serve?
    ensures var path := RouteOf(url).path; |path| > 0 && path[0] == '/' && !HasDotDot(path)
  {
    var p := UrlDecoded(url).out;
    var path := RouteOf(url).path;
    if p[|p| - 1] == '/' {
      var t := "index.html";
      assert path == p + t;
      forall i | 0 <= i < |path| - 1 ensures !(path[i] == '.' && path[i + 1] == '.') {
        if i < |p| - 1 {
          assert path[i] == p[i] && path[i + 1] == p[i + 1];
        } else if i == |p| - 1 {
          assert path[i] == '/';
        } else {
          assert path[i] == t[i - |p|] && path[i + 1] == t[i + 1 - |p|];
        }
      }
    }
  }

  /** A directory request is served as its index.html, with type text/html. */
  lemma DirectoryServesIndex(url: string)
    requires RouteOf(url).Serve?
    requires var p := UrlDecoded(url).out; p[|p| - 1] == '/'
    ensures RouteOf(url).path == UrlDecoded(url).out + "index.html"
    ensures RouteOf(url).extension == "html"
    ensures ExtensionToType(RouteOf(url).extension) == "text/html"
  {
    IndexExtension(UrlDecoded(url).out);
  }

  /** A directory path with "index.html" added has the extension html, of type text/html. */
  lemma IndexExtension(p: string)
    requires |p| > 0 && p[|p| - 1] == '/'
    ensures Extension(p + "index.html") == "html"
    ensures ExtensionToType("html") == "text/html"
  {
    var t := "index.html";
    var path := p + t;
    assert path[|p| + 5] == '.';
    assert path[|p| - 1] == '/';
    forall j | |p| + 5 < j < |path| ensures path[j] != '.' {
      assert path[j] == t[j - |p|];
    }
    LastIndexOfAt(path, '.', |p| + 5);
    forall j | |p| - 1 < j < |path| ensures path[j] != '/' {
      assert path[j] == t[j - |p|];
    }
    LastIndexOfAt(path, '/', |p| - 1);
    var d := |p| + 5;
    assert path[d + 1..] == "html";
    TableEntriesMap(2);
  }

  // ---------------------------------------------------------------------------
  // The handler

  const CACHE_CONTROL: HttpHead := HttpHead("Cache-Control", "max-age=3600")

  /** The three headers of a served file: its length in decimal, the cache lifetime and its type. */
  function ServedHeaders(content: string, extension: string): (hs: seq<HttpHead>)
    ensures |hs| == 3
    ensures hs[0] == HttpHead("Content-Length", NatToString(|content|)) && ParseDecimal(hs[0].value) == |content|
    ensures hs[1] == CACHE_CONTROL
    ensures hs[2] == HttpHead("Content-Type", ExtensionToType(extension))
  {
    DecimalRoundTrip(|content|);
    [HttpHead("Content-Length", NatToString(|content|)), CACHE_CONTROL, HttpHead("Content-Type", ExtensionToType(extension))]
  }

  /**
   * Fills in rep for a request: the 400 stock reply for a bad URL or path,
   * the 404 stock reply when docRoot + path is not among files, and
   * otherwise status ok with the file appended to the content already in
   * rep and the three served headers.
   */
  method HandleRequest(rep: Reply, reqUrl: string, docRoot: string, files: map<string, string>)
    modifies rep
    ensures match RouteOf(reqUrl)
      case BadRequest =>
        rep.status == BAD_REQUEST && rep.content == StockBody(BAD_REQUEST) && rep.headers == StockHeaders(BAD_REQUEST)
      case Serve(path, ext) =>
        if docRoot + path !in files then
          rep.status == NOT_FOUND && rep.content == StockBody(NOT_FOUND) && rep.headers == StockHeaders(NOT_FOUND)
        else
          rep.status == OK && rep.content == old(rep.content) + files[docRoot + path] &&
          rep.headers == ServedHeaders(rep.content, ext)
  {
    var ok, requestPath := UrlDecode(reqUrl);
    if !ok {
      rep.status, rep.headers, rep.content := BAD_REQUEST, StockHeaders(BAD_REQUEST), StockBody(BAD_REQUEST);
      return;
    }
    if requestPath == [] || requestPath[0] != '/' || HasDotDot(requestPath) {
      rep.status, rep.headers, rep.content := BAD_REQUEST, StockHeaders(BAD_REQUEST), StockBody(BAD_REQUEST);
      return;
    }
    if requestPath[|requestPath| - 1] == '/' {
      requestPath := requestPath + "index.html";
    }
    var extension := Extension(requestPath);
    var fullPath := docRoot + requestPath;
    if fullPath !in files {
      rep.status, rep.headers, rep.content := NOT_FOUND, StockHeaders(NOT_FOUND), StockBody(NOT_FOUND);
      return;
    }
    rep.status := OK;
    rep.content := rep.content + files[fullPath];
    rep.headers := ServedHeaders(rep.content, extension);
  }
}
