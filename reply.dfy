// HTTP/1.0 replies: status lines, the two public headers, stock replies and
// the query-parameter lookup of a request.

module Replies {

  import opened Lists

  // ---------------------------------------------------------------------------
  // Decimal numerals (the Content-Length values)

  /** The decimal numeral of n, most significant digit first, without leading zeros. */
  function NatToString(n: nat): (s: string)
    ensures |s| > 0 && forall i :: 0 <= i < |s| ==> '0' <= s[i] <= '9'
    ensures |s| > 1 ==> s[0] != '0'
    decreases n
  {
    if n < 10 then [('0' as int + n) as char]
    else NatToString(n / 10) + [('0' as int + n % 10) as char]
  }

  /** The value of a string of decimal digits. */
  function ParseDecimal(s: string): nat
    requires forall i :: 0 <= i < |s| ==> '0' <= s[i] <= '9'
  {
    if s == [] then 0
    else ParseDecimal(s[..|s| - 1]) * 10 + (s[|s| - 1] as int - '0' as int)
  }

  /** Reading a numeral back gives the number. */
  lemma {:induction false} DecimalRoundTrip(n: nat)
    ensures ParseDecimal(NatToString(n)) == n
    decreases n
  {
    var s := NatToString(n);
    if n >= 10 {
      DecimalRoundTrip(n / 10);
      assert s[..|s| - 1] == NatToString(n / 10);
    }
  }

  /** Different numbers have different numerals. */
  lemma DecimalInjective(m: nat, n: nat)
    requires NatToString(m) == NatToString(n)
    ensures m == n
  {
    DecimalRoundTrip(m);
    DecimalRoundTrip(n);
  }

  // ---------------------------------------------------------------------------
  // Status lines

  /** A status code with its reason phrase. */
  datatype StatusEntry = StatusEntry(code: nat, reason: string)

  /** The sixteen statuses of a reply, in declaration order. */
  const STATUSES: seq<StatusEntry> := [
    StatusEntry(200, "OK"),
    StatusEntry(201, "Created"),
    StatusEntry(202, "Accepted"),
    StatusEntry(204, "No Content"),
    StatusEntry(300, "Multiple Choices"),
    StatusEntry(301, "Moved Permanently"),
    StatusEntry(302, "Moved Temporarily"),
    StatusEntry(304, "Not Modified"),
    StatusEntry(400, "Bad Request"),
    StatusEntry(401, "Unauthorized"),
    StatusEntry(403, "Forbidden"),
    StatusEntry(404, "Not Found"),
    StatusEntry(500, "Internal Server Error"),
    StatusEntry(501, "Not Implemented"),
    StatusEntry(502, "Bad Gateway"),
    StatusEntry(503, "Service Unavailable")
  ]

  const OK: int := 200
  const NO_CONTENT: int := 204
  const BAD_REQUEST: int := 400
  const NOT_FOUND: int := 404
  const INTERNAL_SERVER_ERROR: int := 500

  predicate Known(status: int) { exists i :: 0 <= i < |STATUSES| && STATUSES[i].code == status }

  /**
   * The switch shared by the status line and the stock body: each enumerator
   * selects its own code and reason, any other value the 500 entry.
   */
  function StatusOf(status: int): StatusEntry
  {
    if status == 200 then StatusEntry(200, "OK")
    else if status == 201 then StatusEntry(201, "Created")
    else if status == 202 then StatusEntry(202, "Accepted")
    else if status == 204 then StatusEntry(204, "No Content")
    else if status == 300 then StatusEntry(300, "Multiple Choices")
    else if status == 301 then StatusEntry(301, "Moved Permanently")
    else if status == 302 then StatusEntry(302, "Moved Temporarily")
    else if status == 304 then StatusEntry(304, "Not Modified")
    else if status == 400 then StatusEntry(400, "Bad Request")
    else if status == 401 then StatusEntry(401, "Unauthorized")
    else if status == 403 then StatusEntry(403, "Forbidden")
    else if status == 404 then StatusEntry(404, "Not Found")
    else if status == 500 then StatusEntry(500, "Internal Server Error")
    else if status == 501 then StatusEntry(501, "Not Implemented")
    else if status == 502 then StatusEntry(502, "Bad Gateway")
    else if status == 503 then StatusEntry(503, "Service Unavailable")
    else StatusEntry(500, "Internal Server Error")
  }

  /** Each listed status selects its own entry. */
  lemma StatusOfKnown(i: nat)
    requires i < |STATUSES|
    ensures StatusOf(STATUSES[i].code) == STATUSES[i]
  {
  }

  /** Any other value selects the 500 entry. */
  lemma StatusOfUnknown(status: int)
    requires !Known(status)
    ensures StatusOf(status) == STATUSES[12] && StatusOf(status).code == INTERNAL_SERVER_ERROR
  {
    assert status != 200 && status != 201 && status != 202 && status != 204 by {
      assert STATUSES[0].code == 200 && STATUSES[1].code == 201 && STATUSES[2].code == 202 && STATUSES[3].code == 204;
    }
    assert status != 300 && status != 301 && status != 302 && status != 304 by {
      assert STATUSES[4].code == 300 && STATUSES[5].code == 301 && STATUSES[6].code == 302 && STATUSES[7].code == 304;
    }
    assert status != 400 && status != 401 && status != 403 && status != 404 by {
      assert STATUSES[8].code == 400 && STATUSES[9].code == 401 && STATUSES[10].code == 403 && STATUSES[11].code == 404;
    }
    assert status != 500 && status != 501 && status != 502 && status != 503 by {
      assert STATUSES[12].code == 500 && STATUSES[13].code == 501 && STATUSES[14].code == 502 && STATUSES[15].code == 503;
    }
  }

  /**
   * The status line, "HTTP/1.0 <code> <reason>" and CRLF as in section 6.1
   * of RFC 1945; each of the sixteen constant lines has exactly this shape.
   */
  function StatusLine(status: int): string
  {
    var e := StatusOf(status);
    "HTTP/1.0 " + NatToString(e.code) + " " + e.reason + "\r\n"
  }

  /** Every code in the table has three digits. */
  lemma CodesThreeDigits(i: nat)
    requires i < |STATUSES|
    ensures 100 <= STATUSES[i].code < 1000 && |NatToString(STATUSES[i].code)| == 3
  {
    var c := STATUSES[i].code;
    assert NatToString(c) == NatToString(c / 10 / 10) + [('0' as int + c / 10 % 10) as char] + [('0' as int + c % 10) as char];
  }

  /**
   * Reading the status line back: it starts with "HTTP/1.0 ", characters 9
   * to 11 are the decimal code of the status (500 for an unknown one), then
   * a space, the reason phrase of that code in the table, and CRLF.
   */
  lemma StatusLineParses(status: int)
    ensures var line := StatusLine(status);
      |line| >= 14 && line[..9] == "HTTP/1.0 " && ParseDecimal(line[9..12]) == (if Known(status) then status else 500) &&
      line[12] == ' ' && line[|line| - 2..] == "\r\n" &&
      exists i :: 0 <= i < |STATUSES| && STATUSES[i].code == ParseDecimal(line[9..12]) && line[13..|line| - 2] == STATUSES[i].reason
  {
    var i: nat;
    if Known(status) {
      i :| i < |STATUSES| && STATUSES[i].code == status;
      StatusOfKnown(i);
    } else {
      StatusOfUnknown(status);
      i := 12;
    }
    var e := STATUSES[i];
    CodesThreeDigits(i);
    DecimalRoundTrip(e.code);
    LineShape(NatToString(e.code), e.reason);
  }

  /** Where the parts of a status line with a three-digit code sit. */
  lemma LineShape(digits: string, reason: string)
    requires |digits| == 3
    ensures var line := "HTTP/1.0 " + digits + " " + reason + "\r\n";
      |line| >= 14 && line[..9] == "HTTP/1.0 " && line[9..12] == digits && line[12] == ' ' &&
      line[13..|line| - 2] == reason && line[|line| - 2..] == "\r\n"
  {
  }

  /** Every unknown status shares the 500 line. */
  lemma UnknownStatusLine(status: int)
    requires !Known(status)
    ensures StatusLine(status) == StatusLine(INTERNAL_SERVER_ERROR)
  {
    StatusOfUnknown(status);
    StatusOfKnown(12);
  }

  // ---------------------------------------------------------------------------
  // Stock bodies

  /** The page the stock bodies follow: the reason as title, code and reason as heading. */
  function StockPage(code: nat, reason: string): string
  {
    "<html>" + "<head><title>" + reason + "</title></head>" + "<body><h1>" + NatToString(code) + " " + reason + "</h1></body>" + "</html>"
  }

  /** The 204 body, whose heading reads "204 Content". */
  const NO_CONTENT_BODY: string := "<html>" + "<head><title>No Content</title></head>" + "<body><h1>204 Content</h1></body>" + "</html>"

  /**
   * The HTML body of a stock reply, chosen by the same switch as the status
   * line: the ok body is empty, the 204 body is its own constant, every other
   * body is the page of its code and reason.
   */
  function StockBody(status: int): string
  {
    var e := StatusOf(status);
    if e.code == 200 then ""
    else if e.code == 204 then NO_CONTENT_BODY
    else StockPage(e.code, e.reason)
  }

  /** The ok body is empty; every other body is a complete HTML page. */
  lemma StockBodyShape(status: int)
    ensures status == OK <==> StockBody(status) == ""
    ensures status != OK ==> StockBody(status)[..6] == "<html>" && |StockBody(status)| > 13
  {
    StatusOfOk(status);
    var e := StatusOf(status);
    if e.code == 204 {
      assert NO_CONTENT_BODY[..6] == "<html>";
    } else if e.code != 200 {
      StockPageShape(e.code, e.reason);
    }
  }

  /** Only the ok status selects the 200 entry. */
  lemma StatusOfOk(status: int)
    ensures StatusOf(status).code == 200 <==> status == OK
  {
  }

  /** Every page opens with its html tag. */
  lemma StockPageShape(code: nat, reason: string)
    ensures StockPage(code, reason)[..6] == "<html>" && |StockPage(code, reason)| > 13
  {
    var rest := "<head><title>" + reason + "</title></head>" + "<body><h1>" + NatToString(code) + " " + reason + "</h1></body>" + "</html>";
    assert StockPage(code, reason) == "<html>" + rest;
  }

  /** An unknown status gets the 500 body. */
  lemma UnknownStockBody(status: int)
    requires !Known(status)
    ensures StockBody(status) == StockBody(INTERNAL_SERVER_ERROR)
    ensures StockBody(status) == StockPage(500, "Internal Server Error")
  {
    StatusOfUnknown(status);
    StatusOfKnown(12);
  }

  /** The 204 body departs from the page its title calls for. */
  lemma NoContentBodyDeparts()
    ensures StockBody(NO_CONTENT) == NO_CONTENT_BODY
    ensures StockBody(NO_CONTENT) != StockPage(204, "No Content")
  {
    assert |NatToString(204)| == 3 by { CodesThreeDigits(3); }
    assert |NO_CONTENT_BODY| + 3 == |StockPage(204, "No Content")|;
  }

  // ---------------------------------------------------------------------------
  // Replies

  datatype HttpHead = HttpHead(name: string, value: string)

  const ALLOW_ORIGIN: HttpHead := HttpHead("Access-Control-Allow-Origin", "*")
  const CONNECTION_CLOSE: HttpHead := HttpHead("Connection", "close")

  /** Whether some header is named like one of the two public headers. */
  predicate HasPublicHeader(headers: seq<HttpHead>)
  {
    exists i :: 0 <= i < |headers| && IsPublicName(headers[i].name)
  }

  /** The names the serialiser looks for. */
  predicate IsPublicName(name: string)
  {
    name == ALLOW_ORIGIN.name || name == CONNECTION_CLOSE.name
  }

  /** The headers after to_string: the two public headers are added unless one of their names is present. */
  function WithPublicHeaders(headers: seq<HttpHead>): (r: seq<HttpHead>)
    ensures HasPublicHeader(r)
  {
    if HasPublicHeader(headers) then headers
    else
      assert (headers + [ALLOW_ORIGIN, CONNECTION_CLOSE])[|headers|] == ALLOW_ORIGIN;
      headers + [ALLOW_ORIGIN, CONNECTION_CLOSE]
  }

  /** Adding the public headers twice adds them once. */
  lemma PublicHeadersIdempotent(headers: seq<HttpHead>)
    ensures WithPublicHeaders(WithPublicHeaders(headers)) == WithPublicHeaders(headers)
    ensures |WithPublicHeaders(headers)| == |headers| + (if HasPublicHeader(headers) then 0 else 2)
  {
  }

  /** One header as serialised. */
  function HeaderLine(h: HttpHead): string
  {
    h.name + ": " + h.value + "\r\n"
  }

  /** The header lines, in order. */
  function HeaderLines(headers: seq<HttpHead>): string
  {
    if headers == [] then ""
    else HeaderLines(headers[..|headers| - 1]) + HeaderLine(headers[|headers| - 1])
  }

  /** A reply on the wire: status line, header lines, an empty line, the content. */
  function Serialised(status: int, headers: seq<HttpHead>, content: string): string
  {
    StatusLine(status) + HeaderLines(headers) + "\r\n" + content
  }

  /** The header lines of a list of headers continue those of its front. */
  lemma {:induction false} HeaderLinesAppend(a: seq<HttpHead>, b: seq<HttpHead>)
    ensures HeaderLines(a + b) == HeaderLines(a) + HeaderLines(b)
    decreases |b|
  {
    if b == [] {
      assert a + b == a;
    } else {
      var n := |b| - 1;
      assert (a + b)[..|a + b| - 1] == a + b[..n];
      assert (a + b)[|a + b| - 1] == b[n];
      HeaderLinesAppend(a, b[..n]);
      assert HeaderLines(a + b) == (HeaderLines(a) + HeaderLines(b[..n])) + HeaderLine(b[n]);
      AppendAssoc(HeaderLines(a), HeaderLines(b[..n]), HeaderLine(b[n]));
    }
  }

  /**
   * The public headers' lines come last, right before the empty line, when
   * they were missing.
   */
  lemma PublicHeaderLines(headers: seq<HttpHead>)
    requires !HasPublicHeader(headers)
    ensures HeaderLines(WithPublicHeaders(headers)) ==
            HeaderLines(headers) + HeaderLine(ALLOW_ORIGIN) + HeaderLine(CONNECTION_CLOSE)
  {
    HeaderLinesAppend(headers, [ALLOW_ORIGIN, CONNECTION_CLOSE]);
    assert [ALLOW_ORIGIN, CONNECTION_CLOSE][..1] == [ALLOW_ORIGIN];
    assert [ALLOW_ORIGIN][..0] == [];
    assert HeaderLines([ALLOW_ORIGIN]) == HeaderLine(ALLOW_ORIGIN);
  }

  /** The scan for a header named like a public header. */
  method FindPublicHeader(headers: seq<HttpHead>) returns (found: bool)
    ensures found == HasPublicHeader(headers)
  {
    found := false;
    var i := 0;
    while i < |headers|
      invariant 0 <= i <= |headers|
      invariant forall j :: 0 <= j < i ==> !IsPublicName(headers[j].name)
    {
      if IsPublicName(headers[i].name) {
        found := true;
        break;
      }
      i := i + 1;
    }
  }

  /** The streaming of a reply: status line, then each header line, then the empty line and the content. */
  method Render(status: int, headers: seq<HttpHead>, content: string) returns (s: string)
    ensures s == Serialised(status, headers, content)
  {
    s := StatusLine(status);
    var k := 0;
    while k < |headers|
      invariant 0 <= k <= |headers|
      invariant s == StatusLine(status) + HeaderLines(headers[..k])
    {
      assert headers[..k + 1][..k] == headers[..k];
      assert HeaderLines(headers[..k + 1]) == HeaderLines(headers[..k]) + HeaderLine(headers[k]);
      AppendAssoc(StatusLine(status), HeaderLines(headers[..k]), HeaderLine(headers[k]));
      s := s + HeaderLine(headers[k]);
      k := k + 1;
    }
    assert headers[..k] == headers;
    s := s + "\r\n" + content;
  }

  class Reply {
    var status: int
    var headers: seq<HttpHead>
    var content: string

    constructor (status: int, headers: seq<HttpHead>, content: string)
      ensures this.status == status && this.headers == headers && this.content == content
    {
      this.status, this.headers, this.content := status, headers, content;
    }

    /**
     * Adds the two public headers unless a header with either name is
     * present, then serialises the reply.
     */
    method ToString() returns (s: string)
      modifies this
      ensures headers == WithPublicHeaders(old(headers))
      ensures status == old(status) && content == old(content)
      ensures s == Serialised(status, headers, content)
    {
      var found := FindPublicHeader(headers);
      if !found {
        headers := headers + [ALLOW_ORIGIN];
        headers := headers + [CONNECTION_CLOSE];
      }
      s := Render(status, headers, content);
    }

    /** A stock reply: the stock page of status and its three headers. */
    static method StockReply(status: int) returns (rep: Reply)
      ensures fresh(rep)
      ensures rep.status == status && rep.content == StockBody(status) && rep.headers == StockHeaders(status)
    {
      rep := new Reply(status, StockHeaders(status), StockBody(status));
    }
  }

  /**
   * The headers of a stock reply: the body length in decimal, the HTML
   * content type, and a third header whose name and value are empty.
   */
  function StockHeaders(status: int): (hs: seq<HttpHead>)
    ensures |hs| == 3
    ensures hs[0] == HttpHead("Content-Length", NatToString(|StockBody(status)|))
    ensures ParseDecimal(hs[0].value) == |StockBody(status)|
    ensures hs[1] == HttpHead("Content-Type", "text/html") && hs[2] == HttpHead("", "")
  {
    DecimalRoundTrip(|StockBody(status)|);
    [HttpHead("Content-Length", NatToString(|StockBody(status)|)), HttpHead("Content-Type", "text/html"), HttpHead("", "")]
  }

  /** A stock reply lacks the public headers, so serialising it adds both after its three. */
  lemma StockReplyGetsPublicHeaders(status: int)
    ensures WithPublicHeaders(StockHeaders(status)) == StockHeaders(status) + [ALLOW_ORIGIN, CONNECTION_CLOSE]
  {
    var hs := StockHeaders(status);
    assert !HasPublicHeader(hs) by {
      forall i | 0 <= i < |hs|
        ensures hs[i].name != ALLOW_ORIGIN.name && hs[i].name != CONNECTION_CLOSE.name
      {
        assert hs[i].name == "Content-Length" || hs[i].name == "Content-Type" || hs[i].name == "";
        assert "Content-Length"[1] != ALLOW_ORIGIN.name[1];
        assert "Content-Type"[1] != ALLOW_ORIGIN.name[1];
        assert "Content-Length"[7] != CONNECTION_CLOSE.name[7];
        assert "Content-Type"[7] != CONNECTION_CLOSE.name[7];
      }
    }
  }

  // ---------------------------------------------------------------------------
  // Request parameters

  /** The value stored for key, or the empty string when there is none. */
  function GetReqParam(keyValues: map<string, string>, key: string): (v: string)
    ensures key in keyValues ==> v == keyValues[key]
    ensures key !in keyValues ==> v == ""
  {
    if key in keyValues then keyValues[key] else ""
  }
}
