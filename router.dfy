/** The request classification of read_from_client (main/main.c): the method is
    checked by a three-character prefix comparison, the path is whatever follows
    the first space and is matched by prefix as well. Also the fixed response
    texts the router sends, and the decimal rendering of the page length. */
module Router {

  import opened Wrappers

  /** The three outcomes of the routing test. */
  datatype Route = Subscribe | Page | NotFound

  /** The buffer size read_from_client reads into (OTA_BUFF_SIZE). */
  const ReadBufSize: nat := 1024

  /** What strncmp(s, p, strlen(p)) == 0 tests: s begins with p, character
      by character. */
  function StartsWith(s: seq<char>, p: seq<char>): (r: bool)
    ensures r <==> |p| <= |s| && forall i :: 0 <= i < |p| ==> s[i] == p[i]
  {
    |p| <= |s| && s[..|p|] == p
  }

  /** k is the position of the first space of s, read as a C string: no NUL
      comes before it (what strstr(s, " ") finds in the zero-filled buffer). */
  ghost predicate FirstSpaceAt(s: seq<char>, k: int)
  {
    0 <= k < |s| && s[k] == ' ' && forall j :: 0 <= j < k ==> s[j] != ' ' && s[j] != '\0'
  }

  function FindSpace(s: seq<char>): (r: Option<nat>)
    ensures r.Some? ==> FirstSpaceAt(s, r.value)
    ensures r.None? ==> forall k :: !FirstSpaceAt(s, k)
  {
    if s == [] || s[0] == '\0' then None
    else if s[0] == ' ' then Some(0)
    else match FindSpace(s[1..])
      case None =>
        assert forall k :: FirstSpaceAt(s, k) ==> FirstSpaceAt(s[1..], k - 1);
        None
      case Some(k) => Some(k + 1)
  }

  /** The text after the first space, where uri_start_p points. */
  function Uri(req: seq<char>): (r: Option<seq<char>>)
    ensures r.Some? <==> exists k :: FirstSpaceAt(req, k)
    ensures forall k :: FirstSpaceAt(req, k) ==> r == Some(req[k + 1..])
  {
    match FindSpace(req)
    case None => None
    case Some(k) => Some(req[k + 1..])
  }

  /** The routing decision. The method test only compares the first three
      characters with "GET", so "GETX /event" subscribes too; "/event" is a
      path prefix ("/events" subscribes); the page needs "/" and then a space. */
  function Classify(req: seq<char>): (r: Route)
    ensures r == Subscribe <==>
      StartsWith(req, "GET") && exists k :: FirstSpaceAt(req, k) && StartsWith(req[k + 1..], "/event")
    ensures r == Page <==>
      StartsWith(req, "GET") &&
      exists k :: FirstSpaceAt(req, k) && !StartsWith(req[k + 1..], "/event") && StartsWith(req[k + 1..], "/ ")
    ensures !StartsWith(req, "GET") ==> r == NotFound
  {
    if !StartsWith(req, "GET") then NotFound
    else match Uri(req)
      case None => NotFound
      case Some(uri) =>
        if StartsWith(uri, "/event") then Subscribe
        else if StartsWith(uri, "/ ") then Page
        else NotFound
  }

  const Busy503: seq<char> := "HTTP/1.1 503 Server Busy\r\n\r\n"
  const EventStreamOk: seq<char> :=
    "HTTP/1.1 200 OK\r\nConnection: Keep-Alive\r\nContent-Type: text/event-stream\r\nCache-Control: no-cache\r\n\r\n"
  const NotFound404: seq<char> := "HTTP/1.1 404 Not Found\r\nContent-Length: 0\r\n\r\n"
  const PageHeadPrefix: seq<char> := "HTTP/1.1 200 OK\r\nContent-Length: "
  const PageHeadSuffix: seq<char> := "\r\nContent-Encoding: gzip\r\n\r\n"

  predicate IsDigit(c: char) { '0' <= c <= '9' }

  function DigitChar(d: nat): (c: char)
    requires d < 10
    ensures IsDigit(c) && c as int - '0' as int == d
  {
    ('0' as int + d) as char
  }

  /** How printf's %d renders a non-negative number. */
  function DecimalString(n: nat): (s: seq<char>)
    ensures 1 <= |s|
    ensures forall i :: 0 <= i < |s| ==> IsDigit(s[i])
    ensures |s| > 1 ==> s[0] != '0'
  {
    if n < 10 then [DigitChar(n)] else DecimalString(n / 10) + [DigitChar(n % 10)]
  }

  /** The number a string of digits denotes (what a client's parser reads). */
  function DigitsValue(s: seq<char>): nat
    requires forall i :: 0 <= i < |s| ==> IsDigit(s[i])
  {
    if s == [] then 0
    else
      assert IsDigit(s[|s| - 1]);
      DigitsValue(s[..|s| - 1]) * 10 + (s[|s| - 1] as int - '0' as int)
  }

  lemma {:induction false} DecimalRoundTrip(n: nat)
    ensures DigitsValue(DecimalString(n)) == n
  {
    if n >= 10 {
      var s := DecimalString(n);
      assert s[..|s| - 1] == DecimalString(n / 10);
      DecimalRoundTrip(n / 10);
    }
  }

  /** The header of the page response; the payload follows it on the wire. */
  function PageHeader(payloadLen: nat): (h: seq<char>)
    ensures StartsWith(h, PageHeadPrefix)
    ensures |h| >= 4 && h[|h| - 4..] == "\r\n\r\n"
  {
    PageHeadPrefix + DecimalString(payloadLen) + PageHeadSuffix
  }

  /** Reads the Content-Length value back from a page header: the digits that
      start right after the header name, up to the first non-digit. */
  function LeadingDigits(s: seq<char>): (r: seq<char>)
    ensures |r| <= |s| && r == s[..|r|]
    ensures forall i :: 0 <= i < |r| ==> IsDigit(r[i])
    ensures |r| < |s| ==> !IsDigit(s[|r|])
  {
    if s == [] || !IsDigit(s[0]) then [] else [s[0]] + LeadingDigits(s[1..])
  }

  function ContentLengthOf(header: seq<char>): Option<nat>
  {
    if !StartsWith(header, PageHeadPrefix) then None
    else
      var digits := LeadingDigits(header[|PageHeadPrefix|..]);
      if digits == [] then None else Some(DigitsValue(digits))
  }

  lemma {:induction false} LeadingDigitsOfNumber(digits: seq<char>, rest: seq<char>)
    requires forall i :: 0 <= i < |digits| ==> IsDigit(digits[i])
    requires rest != [] && !IsDigit(rest[0])
    ensures LeadingDigits(digits + rest) == digits
  {
    if digits != [] {
      assert (digits + rest)[1..] == digits[1..] + rest;
      LeadingDigitsOfNumber(digits[1..], rest);
    }
  }

  /** The Content-Length the page response announces is the payload length. */
  lemma PageHeaderAnnouncesLength(n: nat)
    ensures ContentLengthOf(PageHeader(n)) == Some(n)
  {
    var h := PageHeader(n);
    assert h[..|PageHeadPrefix|] == PageHeadPrefix;
    assert h[|PageHeadPrefix|..] == DecimalString(n) + PageHeadSuffix;
    LeadingDigitsOfNumber(DecimalString(n), PageHeadSuffix);
    DecimalRoundTrip(n);
  }
}
