/** The CONNECT request as a proxy reads it (section 9.3.6 of RFC 9110, sections 2.1 and 3 of RFC 9112), and
    every way the answer can be taken. */
module ConnectRequests {
  import opened Text
  import opened Streams
  import opened Socks5
  import opened Connect
  import opened Requests

  // ---- reading a request ----

  type Header = (Text, Text)

  datatype HttpRequest = HttpRequest(verb: Text, target: Text, version: Text, headers: seq<Header>)

  /** Where the first CR LF from i on begins; |s| if there is none. */
  function LineEnd(s: Text, i: nat): (e: nat)
    requires i <= |s|
    ensures i <= e <= |s| && (e < |s| ==> e + 2 <= |s|)
    decreases |s| - i
  {
    if i + 2 > |s| then |s| else if Code(s[i]) == 13 && Code(s[i + 1]) == 10 then i else LineEnd(s, i + 1)
  }

  /** name ": " value */
  function ParseHeader(line: Text): Option<Header> {
    var k := IndexOf(line, ':', 0);
    if k + 2 <= |line| && line[k + 1] == ' ' then Some((line[..k], line[k + 2..])) else None
  }

  /** Header lines up to the blank line, and what follows it. */
  function ParseHeaders(s: Text): Option<(seq<Header>, Text)>
    decreases |s|
  {
    var e := LineEnd(s, 0);
    if e == |s| then None
    else if e == 0 then Some(([], s[2..]))
    else match ParseHeader(s[..e])
      case None => None
      case Some(h) =>
        match ParseHeaders(s[e + 2..])
        case None => None
        case Some(more) => Some(([h] + more.0, more.1))
  }

  /** verb " " target " " version */
  function ParseRequestLine(line: Text): Option<(Text, Text, Text)> {
    var i := IndexOf(line, ' ', 0);
    if i == |line| then None
    else
      var j := IndexOf(line, ' ', i + 1);
      if j == |line| then None else Some((line[..i], line[i + 1..j], line[j + 1..]))
  }

  function ParseRequest(s: Text): Option<(HttpRequest, Text)> {
    var e := LineEnd(s, 0);
    if e == |s| then None
    else match ParseRequestLine(s[..e])
      case None => None
      case Some(l) =>
        match ParseHeaders(s[e + 2..])
        case None => None
        case Some(h) => Some((HttpRequest(l.0, l.1, l.2, h.0), h.1))
  }

  /** Host and port of an authority: the port follows the last colon. */
  function ParseAuthority(a: Text, n: nat): Option<(Text, int)>
    requires n <= |a|
  {
    if n == 0 then None
    else if a[n - 1] == ':' then Some((a[..n - 1], DecimalValue(a[n..])))
    else ParseAuthority(a, n - 1)
  }

  // ---- it reads what the client writes ----

  lemma {:induction false} LineEndAt(line: Text, rest: Text, i: nat)
    requires i <= |line| && NoBreaks(line)
    ensures LineEnd(line + CRLF + rest, i) == |line|
    decreases |line| - i
  {
    var s := line + CRLF + rest;
    assert s[|line|] == '\r' && s[|line| + 1] == '\n';
    if i < |line| {
      assert s[i] == line[i] && !Break(line[i]);
      LineEndAt(line, rest, i + 1);
    }
  }

  lemma CutLine(line: Text, rest: Text)
    requires NoBreaks(line)
    ensures var s := line + CRLF + rest; var e := LineEnd(s, 0);
      e == |line| && e < |s| && s[..e] == line && s[e + 2..] == rest
  {
    LineEndAt(line, rest, 0);
  }

  lemma IndexIs(a: Text, b: byte, rest: Text, i: nat)
    requires i <= |a| && forall k :: i <= k < |a| ==> a[k] != b
    ensures IndexOf(a + [b] + rest, b, i) == |a|
  {
    var s := a + [b] + rest;
    assert s[|a|] == b;
    assert forall k :: i <= k < |a| ==> s[k] == a[k];
  }

  lemma HeaderParses(name: Text, value: Text)
    requires ':' !in name
    ensures ParseHeader(name + ": " + value) == Some((name, value))
  {
    var rest: Text := " " + value;
    assert name + ": " + value == name + [':'] + rest;
    IndexIs(name, ':', rest, 0);
    var line := name + ": " + value;
    assert line[..|name|] == name && line[|name| + 2..] == value;
  }

  lemma HeadersParse(name: Text, value: Text, rest: Text, more: seq<Header>, payload: Text)
    requires ':' !in name && name != [] && NoBreaks(name) && NoBreaks(value)
    requires ParseHeaders(rest) == Some((more, payload))
    ensures ParseHeaders(name + ": " + value + CRLF + rest) == Some(([(name, value)] + more, payload))
  {
    NoBreaksConcat(name, ": ");
    NoBreaksConcat(name + ": ", value);
    CutLine(name + ": " + value, rest);
    HeaderParses(name, value);
  }

  lemma BlankLineParses(rest: Text)
    ensures ParseHeaders(CRLF + rest) == Some(([], rest))
  {
    CutLine([], rest);
    assert [] + CRLF + rest == CRLF + rest;
  }

  lemma RequestLineParses(target: Text)
    requires ' ' !in target
    ensures ParseRequestLine("CONNECT " + target + " HTTP/1.1") == Some(("CONNECT", target, "HTTP/1.1"))
  {
    var verb: Text := "CONNECT";
    var version: Text := "HTTP/1.1";
    var line := "CONNECT " + target + " HTTP/1.1";
    var tail := target + [' '] + version;
    assert line == verb + [' '] + tail;
    IndexIs(verb, ' ', tail, 0);
    var front := verb + [' '] + target;
    assert line == front + [' '] + version;
    forall k | 8 <= k < |front| ensures front[k] != ' ' { assert front[k] == target[k - 8] && target[k - 8] in target; }
    IndexIs(front, ' ', version, 8);
    assert line[..7] == verb && line[8..|front|] == target && line[|front| + 1..] == version;
  }

  lemma {:induction false} LastColon(host: Text, digits: Text, n: nat)
    requires Digits(digits) && |host| < n <= |host| + 1 + |digits|
    ensures ParseAuthority(host + ":" + digits, n) == Some((host, DecimalValue(digits)))
    decreases n
  {
    var a := host + ":" + digits;
    assert a[|host|] == ':';
    if n > |host| + 1 {
      assert a[n - 1] == digits[n - 2 - |host|];
      LastColon(host, digits, n - 1);
    } else {
      assert a[..n - 1] == host && a[n..] == digits;
    }
  }

  lemma {:induction false} DecimalIsDigits(n: nat)
    ensures Digits(Decimal(n)) && Decimal(n) != [] && (|Decimal(n)| > 1 ==> Code(Decimal(n)[0]) != 48)
  {
    if n >= 10 {
      DecimalIsDigits(n / 10);
      if n < 100 { assert Decimal(n)[0] == Digit(n / 10); }
    }
  }

  /** The authority names the host and the port. */
  lemma AuthorityParses(host: Text, port: Port)
    ensures var a := Authority(host, port); ParseAuthority(a, |a|) == Some((host, port as int))
  {
    DecimalIsDigits(port);
    DecimalRoundTrip(port);
    LastColon(host, Decimal(port), |host| + 1 + |Decimal(port)|);
  }

  predicate NoSpaces(s: Text) {
    ' ' !in s
  }

  lemma AuthorityBytes(host: Text, port: Port)
    requires NoBreaks(host) && NoSpaces(host)
    ensures NoBreaks(Authority(host, port)) && NoSpaces(Authority(host, port))
  {
    DecimalIsDigits(port);
    DecimalHasNoBreaks(port);
    assert forall i :: 0 <= i < |Decimal(port)| ==> Decimal(port)[i] != ' ';
    NoBreaksConcat(host, ":");
    NoBreaksConcat(host + ":", Decimal(port));
  }

  /** The headers of the request. */
  function ConnectHeaders(authority: Text, credentials: Option<Text>): seq<Header> {
    [("Host", authority), (CONNECTION, ALIVE)] + CredentialHeaders(credentials)
  }

  function CredentialHeaders(credentials: Option<Text>): seq<Header> {
    match credentials
    case Some(c) => [(AUTHORIZATION, "Basic " + c)]
    case None => []
  }

  function CredentialLines(credentials: Option<Text>): Text {
    match credentials
    case Some(c) => CredentialsLine(c) + CRLF
    case None => []
  }

  const AUTHORIZATION: Text := "Proxy-Authorization"
  const CONNECTION: Text := "Proxy-Connection"
  const ALIVE: Text := "Keep-Alive"

  lemma HeaderNames()
    ensures ':' !in AUTHORIZATION && NoBreaks(AUTHORIZATION)
    ensures ':' !in CONNECTION && NoBreaks(CONNECTION) && NoBreaks(ALIVE)
  {
  }

  lemma KeepAliveText()
    ensures KEEP_ALIVE == CONNECTION + ": " + ALIVE
  {
  }

  lemma CredentialsText(c: Text)
    ensures CredentialsLine(c) == AUTHORIZATION + ": " + ("Basic " + c)
  {
    assert "Proxy-Authorization: Basic " == AUTHORIZATION + ": " + "Basic ";
  }

  lemma CredentialsParse(c: Text, payload: Text)
    requires NoBreaks(c)
    ensures ParseHeaders(CredentialsLine(c) + CRLF + (CRLF + payload))
         == Some(([(AUTHORIZATION, "Basic " + c)], payload))
  {
    BlankLineParses(payload);
    NoBreaksConcat("Basic ", c);
    CredentialsText(c);
    HeaderNames();
    HeadersParse(AUTHORIZATION, "Basic " + c, CRLF + payload, [], payload);
    var header: Header := (AUTHORIZATION, "Basic " + c);
    assert [header] + [] == [header];
  }

  lemma LastHeadersParse(credentials: Option<Text>, payload: Text)
    requires credentials.Some? ==> NoBreaks(credentials.value)
    ensures ParseHeaders(CredentialLines(credentials) + (CRLF + payload))
         == Some((CredentialHeaders(credentials), payload))
  {
    match credentials
    case Some(c) => CredentialsParse(c, payload);
    case None =>
      BlankLineParses(payload);
      assert [] + (CRLF + payload) == CRLF + payload;
  }

  lemma KeepAliveParses(rest: Text, more: seq<Header>, payload: Text)
    requires ParseHeaders(rest) == Some((more, payload))
    ensures ParseHeaders(KEEP_ALIVE + CRLF + rest) == Some(([(CONNECTION, ALIVE)] + more, payload))
  {
    KeepAliveText();
    HeaderNames();
    HeadersParse(CONNECTION, ALIVE, rest, more, payload);
  }

  lemma HostParses(authority: Text, rest: Text, more: seq<Header>, payload: Text)
    requires NoBreaks(authority) && ParseHeaders(rest) == Some((more, payload))
    ensures ParseHeaders(HostLine(authority) + CRLF + rest) == Some(([("Host", authority)] + more, payload))
  {
    var name: Text := "Host";
    assert HostLine(authority) == name + ": " + authority;
    assert ':' !in name;
    HeadersParse(name, authority, rest, more, payload);
  }

  lemma AllHeadersParse(authority: Text, credentials: Option<Text>, payload: Text)
    requires NoBreaks(authority) && (credentials.Some? ==> NoBreaks(credentials.value))
    ensures ParseHeaders(HostLine(authority) + CRLF
                         + (KEEP_ALIVE + CRLF + (CredentialLines(credentials) + (CRLF + payload))))
         == Some((ConnectHeaders(authority, credentials), payload))
  {
    var last, more := CredentialLines(credentials) + (CRLF + payload), CredentialHeaders(credentials);
    LastHeadersParse(credentials, payload);
    KeepAliveParses(last, more, payload);
    var second: seq<Header> := [(CONNECTION, ALIVE)];
    HostParses(authority, KEEP_ALIVE + CRLF + last, second + more, payload);
    HeadersTogether(authority, more);
  }

  lemma HeadersTogether(authority: Text, more: seq<Header>)
    ensures var first: Header, second: Header := ("Host", authority), (CONNECTION, ALIVE);
      [first] + ([second] + more) == [first, second] + more
  {
  }

  lemma RequestInLines(host: Text, port: Port, credentials: Option<Text>, payload: Text)
    ensures var a := Authority(host, port);
      Request(host, port, credentials) + payload == RequestLine(a) + CRLF
        + (HostLine(a) + CRLF + (KEEP_ALIVE + CRLF + (CredentialLines(credentials) + (CRLF + payload))))
  {
    var a := Authority(host, port);
    var lines := [RequestLine(a), HostLine(a), KEEP_ALIVE];
    ThreeLines(RequestLine(a), HostLine(a), KEEP_ALIVE);
    match credentials
    case Some(c) =>
      LinesSnoc(lines, CredentialsLine(c));
      assert RequestLines(host, port, credentials) == lines + [CredentialsLine(c)];
      Regroup(RequestLine(a), HostLine(a), KEEP_ALIVE, CredentialsLine(c) + CRLF, payload);
    case None =>
      assert RequestLines(host, port, credentials) == lines;
      Regroup(RequestLine(a), HostLine(a), KEEP_ALIVE, [], payload);
  }

  lemma Regroup(a: Text, b: Text, c: Text, d: Text, payload: Text)
    ensures a + CRLF + (b + CRLF) + (c + CRLF) + d + CRLF + payload
         == a + CRLF + (b + CRLF + (c + CRLF + (d + (CRLF + payload))))
  {
  }

  /** A proxy reads back a CONNECT for the host and port, with them in the Host header too and with the
      credentials, and nothing of what follows the request. */
  lemma RequestParses(host: Text, port: Port, credentials: Option<Text>, payload: Text)
    requires NoBreaks(host) && NoSpaces(host) && (credentials.Some? ==> NoBreaks(credentials.value))
    ensures var a := Authority(host, port);
      && ParseRequest(Request(host, port, credentials) + payload)
           == Some((HttpRequest("CONNECT", a, "HTTP/1.1", ConnectHeaders(a, credentials)), payload))
      && ParseAuthority(a, |a|) == Some((host, port as int))
  {
    var a := Authority(host, port);
    var headers := HostLine(a) + CRLF + (KEEP_ALIVE + CRLF + (CredentialLines(credentials) + (CRLF + payload)));
    AuthorityParses(host, port);
    AuthorityBytes(host, port);
    RequestInLines(host, port, credentials, payload);
    NoBreaksConcat("CONNECT ", a);
    NoBreaksConcat("CONNECT " + a, " HTTP/1.1");
    CutLine(RequestLine(a), headers);
    RequestLineParses(a);
    AllHeadersParse(a, credentials, payload);
  }

  // ---- reading the answer ----

  /** CR LF CR LF ends at k. */
  lemma EndsHeadIff(s: Text, k: nat)
    ensures EndsHead(s, k) <==> 4 <= k <= |s| && s[k - 4..k] == "\r\n\r\n"
  {
    if 4 <= k <= |s| { assert s[k - 4..k] == [s[k - 4], s[k - 3], s[k - 2], s[k - 1]]; }
  }

  /** HTTP/1.1 or HTTP/1.0 with a status that starts with 2. */
  lemma AcceptingIff(s: Text)
    ensures Accepting(s) <==>
      |s| >= 10 && s[..5] == "HTTP/" && (s[5..8] == "1.1" || s[5..8] == "1.0") && s[8] == ' ' && s[9] == '2'
  {
    if |s| >= 10 {
      assert s[..10] == s[..5] + s[5..8] + [s[8], s[9]];
      assert "HTTP/1.1 2" == "HTTP/" + "1.1" + " 2" && "HTTP/1.0 2" == "HTTP/" + "1.0" + " 2";
      assert "HTTP/1.1 2" <= s <==> s[..10] == "HTTP/1.1 2";
      assert "HTTP/1.0 2" <= s <==> s[..10] == "HTTP/1.0 2";
      SameParts(s[..5], s[5..8], [s[8], s[9]], "HTTP/", "1.1", " 2");
      SameParts(s[..5], s[5..8], [s[8], s[9]], "HTTP/", "1.0", " 2");
    }
  }

  lemma SameParts(a: Text, b: Text, c: Text, a': Text, b': Text, c': Text)
    requires |a| == |a'| && |b| == |b'|
    ensures a + b + c == a' + b' + c' <==> a == a' && b == b' && c == c'
  {
    if a + b + c == a' + b' + c' {
      var s, n := a + b + c, |a| + |b|;
      assert a == s[..|a|] == a' && b == s[|a|..n] == b' && c == s[n..] == c';
    }
  }

  lemma {:induction false} NoHeadRead(input: Text, k: nat)
    requires k <= |input| && k <= 8192 && forall j: nat :: j <= 8192 ==> !EndsHead(input, j)
    ensures ReadHead(input, k) == if |input| > 8192 then (8193, Err(ResponseTooLarge)) else (|input|, Err(Closed))
    decreases |input| - k
  {
    if k < |input| && k < 8192 { NoHeadRead(input, k + 1); }
  }

  /** How the answer is taken if it does not open the tunnel: a complete head is refused with its text, a head
      of more than 8192 bytes is given up after one byte more, and otherwise the connection was closed. */
  lemma ReadHeadFails(input: Text)
    ensures forall n: nat :: n <= 8192 && HeadLength(input, n) && !Accepting(input[..n]) ==>
      ReadHead(input, 0) == (n, Err(ConnectRefused(input[..n])))
    ensures (forall n: nat :: n <= 8192 ==> !HeadLength(input, n)) ==>
      ReadHead(input, 0) == if |input| > 8192 then (8193, Err(ResponseTooLarge)) else (|input|, Err(Closed))
  {
    forall n: nat | n <= 8192 && HeadLength(input, n) && !Accepting(input[..n])
      ensures ReadHead(input, 0) == (n, Err(ConnectRefused(input[..n])))
    {
      ReadHeadFinds(input, 0, n);
    }
    if forall n: nat :: n <= 8192 ==> !HeadLength(input, n) {
      forall j: nat | j <= 8192 ensures !EndsHead(input, j) { NoShortestHead(input, j); }
      NoHeadRead(input, 0);
    }
  }

  lemma {:induction false} NoShortestHead(input: Text, j: nat)
    requires j <= 8192 && forall n: nat :: n <= 8192 ==> !HeadLength(input, n)
    ensures forall i: nat :: i <= j ==> !EndsHead(input, i)
  {
    if j > 0 { NoShortestHead(input, j - 1); }
    if EndsHead(input, j) { assert HeadLength(input, j); }
  }
}
