/** The HTTP CONNECT client handshake (section 9.3.6 of RFC 9110): the request it writes and the loop that
    reads the response head byte by byte. */
module Connect {
  import opened Text
  import opened Streams
  import opened Socks5

  const CRLF: Text := "\r\n"
  const MAX_RESPONSE: nat := 8192

  // ---- the response head ----

  /** The first k bytes end in CR LF CR LF. */
  predicate EndsHead(s: Text, k: nat) {
    4 <= k <= |s| && s[k - 4] == '\r' && s[k - 3] == '\n' && s[k - 2] == '\r' && s[k - 1] == '\n'
  }

  /** The response is read up to here: k is the shortest prefix that ends a head. */
  ghost predicate HeadLength(s: Text, k: nat) {
    EndsHead(s, k) && forall j: nat :: j < k ==> !EndsHead(s, j)
  }

  predicate Accepting(response: Text) {
    "HTTP/1.1 2" <= response || "HTTP/1.0 2" <= response
  }

  /** The loop, from a state in which k bytes have been read: bytes read at the end, and the result. */
  function ReadHead(input: Text, k: nat): (nat, Result<(), ProxyError>)
    requires k <= |input| && k <= MAX_RESPONSE
    decreases |input| - k
  {
    if EndsHead(input, k) then (k, if Accepting(input[..k]) then Ok(()) else Err(ConnectRefused(input[..k])))
    else if k == |input| then (k, Err(Closed))
    else if k + 1 > MAX_RESPONSE then (k + 1, Err(ResponseTooLarge))
    else ReadHead(input, k + 1)
  }

  lemma {:induction false} ReadHeadReads(input: Text, k: nat)
    requires k <= |input| && k <= MAX_RESPONSE
    ensures k <= ReadHead(input, k).0 <= |input|
    decreases |input| - k
  {
    if !EndsHead(input, k) && k < |input| && k < MAX_RESPONSE { ReadHeadReads(input, k + 1); }
  }

  lemma {:induction false} ReadHeadFinds(input: Text, k: nat, n: nat)
    requires k <= n <= MAX_RESPONSE && HeadLength(input, n)
    ensures ReadHead(input, k) == (n, if Accepting(input[..n]) then Ok(()) else Err(ConnectRefused(input[..n])))
    decreases n - k
  {
    if k < n { ReadHeadFinds(input, k + 1, n); }
  }

  lemma {:induction false} ReadHeadFound(input: Text, k: nat)
    requires k <= |input| && k <= MAX_RESPONSE && forall j: nat :: j < k ==> !EndsHead(input, j)
    requires ReadHead(input, k).1.Ok?
    ensures var n := ReadHead(input, k).0; n <= MAX_RESPONSE && HeadLength(input, n) && Accepting(input[..n])
    decreases |input| - k
  {
    if !EndsHead(input, k) { ReadHeadFound(input, k + 1); }
  }

  /** The tunnel is opened exactly when the shortest head exists, has at most 8192 bytes and has a 2xx
      status line; exactly that head has then been read. */
  lemma ConnectIffAcceptingHead(input: Text)
    ensures ReadHead(input, 0).1.Ok? <==>
      exists n :: 0 <= n <= MAX_RESPONSE && HeadLength(input, n) && Accepting(input[..n])
    ensures forall n :: 0 <= n <= MAX_RESPONSE && HeadLength(input, n) && Accepting(input[..n]) ==>
      ReadHead(input, 0) == (n, Ok(()))
  {
    if ReadHead(input, 0).1.Ok? { ReadHeadFound(input, 0); }
    forall n | 0 <= n <= MAX_RESPONSE && HeadLength(input, n) && Accepting(input[..n])
      ensures ReadHead(input, 0) == (n, Ok(()))
    {
      ReadHeadFinds(input, 0, n);
    }
  }

  /** What comes after the head is left to the tunnel. */
  lemma HeadIgnoresPayload(head: Text, payload: Text)
    requires HeadLength(head, |head|) && |head| <= MAX_RESPONSE && Accepting(head)
    ensures ReadHead(head + payload, 0) == (|head|, Ok(())) && (head + payload)[|head|..] == payload
  {
    var s := head + payload;
    assert s[..|head|] == head;
    forall j: nat | j <= |head| ensures EndsHead(s, j) <==> EndsHead(head, j) {
      assert forall i :: 0 <= i < |head| ==> s[i] == head[i];
    }
    ReadHeadFinds(s, 0, |head|);
  }

  // ---- the request ----

  function Digit(d: nat): byte
    requires d < 10
  {
    Byte(48 + d)
  }

  /** A number in decimal, as `format!` writes it. */
  function Decimal(n: nat): Text {
    if n < 10 then [Digit(n)] else Decimal(n / 10) + [Digit(n % 10)]
  }

  function DecimalValue(s: Text): int {
    if s == [] then 0 else 10 * DecimalValue(s[..|s| - 1]) + (Code(s[|s| - 1]) - 48)
  }

  lemma {:induction false} DecimalRoundTrip(n: nat)
    ensures Decimal(n) != [] && DecimalValue(Decimal(n)) == n
  {
    if n >= 10 {
      DecimalRoundTrip(n / 10);
      assert Decimal(n)[..|Decimal(n)| - 1] == Decimal(n / 10);
    } else {
      assert Decimal(n)[..0] == [];
    }
  }

  function Authority(host: Text, port: Port): Text {
    host + ":" + Decimal(port)
  }

  const KEEP_ALIVE: Text := "Proxy-Connection: Keep-Alive"

  function RequestLine(authority: Text): Text {
    "CONNECT " + authority + " HTTP/1.1"
  }

  function HostLine(authority: Text): Text {
    "Host: " + authority
  }

  function CredentialsLine(credentials: Text): Text {
    "Proxy-Authorization: Basic " + credentials
  }

  /** The header lines of the request; `credentials` are the base64 text of user name and password. */
  function RequestLines(host: Text, port: Port, credentials: Option<Text>): seq<Text> {
    [RequestLine(Authority(host, port)), HostLine(Authority(host, port)), KEEP_ALIVE]
    + if credentials.Some? then [CredentialsLine(credentials.value)] else []
  }

  /** Lines, each with its CR LF. */
  function Lines(lines: seq<Text>): Text
    decreases |lines|
  {
    if lines == [] then [] else Lines(lines[..|lines| - 1]) + (lines[|lines| - 1] + CRLF)
  }

  lemma LinesSnoc(lines: seq<Text>, line: Text)
    ensures Lines(lines + [line]) == Lines(lines) + (line + CRLF)
  {
    assert (lines + [line])[..|lines|] == lines;
  }

  lemma ThreeLines(a: Text, b: Text, c: Text)
    ensures Lines([a, b, c]) == a + CRLF + (b + CRLF) + (c + CRLF)
  {
    OneLine(a);
    LinesSnoc([a], b);
    assert [a] + [b] == [a, b];
    LinesSnoc([a, b], c);
    assert [a, b] + [c] == [a, b, c];
  }

  lemma OneLine(a: Text)
    ensures Lines([a]) == a + CRLF
  {
    LinesSnoc([], a);
    assert [] + [a] == [a];
    assert [] + (a + CRLF) == a + CRLF;
  }

  function Request(host: Text, port: Port, credentials: Option<Text>): Text {
    Lines(RequestLines(host, port, credentials)) + CRLF
  }

  predicate Break(b: byte) {
    b == '\r' || b == '\n'
  }

  predicate NoBreaks(s: Text) {
    forall i :: 0 <= i < |s| ==> !Break(s[i])
  }

  /** No blank line ends in the text. */
  ghost predicate Headless(t: Text) {
    forall k: nat :: !EndsHead(t, k)
  }

  /** Not both sides of the place between a and b are CR or LF. */
  predicate Seam(a: Text, b: Text) {
    a == [] || b == [] || !Break(a[|a| - 1]) || !Break(b[0])
  }

  lemma EndsInFirst(a: Text, b: Text, k: nat)
    requires k <= |a|
    ensures EndsHead(a + b, k) <==> EndsHead(a, k)
  {
    if k >= 4 {
      var s := a + b;
      assert s[k - 4] == a[k - 4] && s[k - 3] == a[k - 3] && s[k - 2] == a[k - 2] && s[k - 1] == a[k - 1];
    }
  }

  lemma EndsInSecond(a: Text, b: Text, k: nat)
    requires 4 <= k <= |b|
    ensures EndsHead(a + b, |a| + k) <==> EndsHead(b, k)
  {
    var s, n := a + b, |a| + k;
    assert s[n - 4] == b[k - 4] && s[n - 3] == b[k - 3] && s[n - 2] == b[k - 2] && s[n - 1] == b[k - 1];
  }

  lemma NoneAcross(a: Text, b: Text, k: nat)
    requires Seam(a, b) && |a| < k < |a| + 4
    ensures !EndsHead(a + b, k)
  {
    var s := a + b;
    assert a != [] ==> s[|a| - 1] == a[|a| - 1];
    assert b != [] ==> s[|a|] == b[0];
  }

  /** A blank line does not arise where a break and something else, or nothing but other bytes, meet. */
  lemma HeadlessConcat(a: Text, b: Text)
    requires Seam(a, b)
    ensures Headless(a + b) <==> Headless(a) && Headless(b)
  {
    if Headless(a + b) {
      forall k: nat ensures !EndsHead(a, k) { if k <= |a| { EndsInFirst(a, b, k); } }
      forall k: nat ensures !EndsHead(b, k) { if 4 <= k <= |b| { EndsInSecond(a, b, k); } }
    }
    if Headless(a) && Headless(b) {
      forall k: nat ensures !EndsHead(a + b, k) {
        if k <= |a| { EndsInFirst(a, b, k); }
        else if k < |a| + 4 { NoneAcross(a, b, k); }
        else if k <= |a + b| { EndsInSecond(a, b, k - |a|); }
      }
    }
  }

  lemma NoBreaksHeadless(s: Text)
    requires NoBreaks(s)
    ensures Headless(s)
  {
    forall k: nat ensures !EndsHead(s, k) {
      if 4 <= k <= |s| { assert !Break(s[k - 1]); }
    }
  }

  /** Between other bytes, only s can hold the end of a head. */
  lemma LineHeadlessIff(before: Text, s: Text, after: Text)
    requires before != [] && NoBreaks(before) && after != [] && NoBreaks(after)
    ensures Headless(before + s + after + CRLF) <==> Headless(s)
  {
    NoBreaksHeadless(before);
    NoBreaksHeadless(after);
    HeadlessConcat(before, s);
    HeadlessConcat(before + s, after);
    var line := before + s + after;
    assert line[|line| - 1] == after[|after| - 1];
    HeadlessConcat(line, CRLF);
  }

  lemma {:induction false} DecimalHasNoBreaks(n: nat)
    ensures NoBreaks(Decimal(n))
  {
    if n >= 10 { DecimalHasNoBreaks(n / 10); }
  }

  lemma NoBreaksConcat(a: Text, b: Text)
    requires NoBreaks(a) && NoBreaks(b)
    ensures NoBreaks(a + b)
  {
  }

  lemma AuthorityLine(before: Text, host: Text, port: Port, after: Text)
    requires before != [] && NoBreaks(before) && NoBreaks(after)
    ensures Headless(before + Authority(host, port) + after + CRLF) <==> Headless(host)
  {
    var rest := ":" + Decimal(port) + after;
    DecimalHasNoBreaks(port);
    NoBreaksConcat(":", Decimal(port));
    NoBreaksConcat(":" + Decimal(port), after);
    assert before + Authority(host, port) + after == before + host + rest;
    LineHeadlessIff(before, host, rest);
  }

  /** A line begins with another byte, so it makes no blank line with what comes before. */
  lemma LineAfter(t: Text, line: Text)
    requires line != [] && !Break(line[0])
    ensures Headless(t + (line + CRLF)) <==> Headless(t) && Headless(line + CRLF)
  {
    assert (line + CRLF)[0] == line[0];
    HeadlessConcat(t, line + CRLF);
  }

  lemma HostLines(host: Text, port: Port)
    ensures var a := Authority(host, port);
      Headless(RequestLine(a) + CRLF) == Headless(HostLine(a) + CRLF) == Headless(host)
  {
    AuthorityLine("CONNECT ", host, port, " HTTP/1.1");
    AuthorityLine("Host: ", host, port, []);
    assert HostLine(Authority(host, port)) + [] == HostLine(Authority(host, port));
  }

  lemma KeepAliveLine()
    ensures Headless(KEEP_ALIVE + CRLF) && !Break(KEEP_ALIVE[0])
  {
    NoBreaksHeadless(KEEP_ALIVE);
    HeadlessConcat(KEEP_ALIVE, CRLF);
  }

  lemma ThreeHeadless(a: Text, b: Text, c: Text)
    requires b != [] && c != [] && !Break(b[0]) && !Break(c[0])
    ensures Headless(a + CRLF + (b + CRLF) + (c + CRLF)) <==>
      Headless(a + CRLF) && Headless(b + CRLF) && Headless(c + CRLF)
  {
    LineAfter(a + CRLF, b);
    LineAfter(a + CRLF + (b + CRLF), c);
  }

  lemma CredentialsLineIff(t: Text, c: Text)
    ensures Headless(t + (CredentialsLine(c) + CRLF)) <==> Headless(t) && Headless(c + CRLF)
  {
    var name := "Proxy-Authorization: Basic ";
    LineAfter(t, name + c);
    NoBreaksHeadless(name);
    assert name + c + CRLF == name + (c + CRLF);
    HeadlessConcat(name, c + CRLF);
  }

  lemma RequestLinesHeadless(host: Text, port: Port, credentials: Option<Text>)
    ensures Headless(Lines(RequestLines(host, port, credentials))) <==>
      Headless(host) && (credentials.Some? ==> Headless(credentials.value + CRLF))
  {
    var a := Authority(host, port);
    var lines := [RequestLine(a), HostLine(a), KEEP_ALIVE];
    HostLines(host, port);
    KeepAliveLine();
    ThreeLines(RequestLine(a), HostLine(a), KEEP_ALIVE);
    ThreeHeadless(RequestLine(a), HostLine(a), KEEP_ALIVE);
    if credentials.Some? {
      LinesSnoc(lines, CredentialsLine(credentials.value));
      assert RequestLines(host, port, credentials) == lines + [CredentialsLine(credentials.value)];
      CredentialsLineIff(Lines(lines), credentials.value);
    } else {
      assert RequestLines(host, port, credentials) == lines;
    }
  }

  /** A text that ends in CR LF is one head with a further CR LF exactly when no blank line is in it. */
  lemma BlankLineEnds(t: Text, line: Text)
    ensures var s := t + (line + CRLF) + CRLF; HeadLength(s, |s|) <==> Headless(t + (line + CRLF))
  {
    var u, s := t + (line + CRLF), t + (line + CRLF) + CRLF;
    var n := |u|;
    assert u == t + line + CRLF;
    assert s[n - 2] == u[n - 2] == '\r' && s[n - 1] == u[n - 1] == '\n' && s[n] == '\r' && s[n + 1] == '\n';
    assert !EndsHead(s, n + 1);
    forall k: nat | k <= n ensures EndsHead(s, k) <==> EndsHead(u, k) { EndsInFirst(u, CRLF, k); }
  }

  /** The request, read by the same rule, is a single head, ending at its first blank line, exactly when there
      is no blank line in the host nor in the credentials with the CR LF that follows them. */
  lemma RequestIsOneHeadIff(host: Text, port: Port, credentials: Option<Text>)
    ensures HeadLength(Request(host, port, credentials), |Request(host, port, credentials)|) <==>
      Headless(host) && (credentials.Some? ==> Headless(credentials.value + CRLF))
  {
    var lines := RequestLines(host, port, credentials);
    RequestLinesHeadless(host, port, credentials);
    BlankLineEnds(Lines(lines[..|lines| - 1]), lines[|lines| - 1]);
  }

  /** In particular when they hold no CR or LF. */
  lemma RequestIsOneHead(host: Text, port: Port, credentials: Option<Text>)
    requires NoBreaks(host) && (credentials.Some? ==> NoBreaks(credentials.value))
    ensures HeadLength(Request(host, port, credentials), |Request(host, port, credentials)|)
  {
    RequestIsOneHeadIff(host, port, credentials);
    NoBreaksHeadless(host);
    if credentials.Some? {
      NoBreaksHeadless(credentials.value);
      HeadlessConcat(credentials.value, CRLF);
    }
  }

  // ---- the loop ----

  /** The request as `connect_http_proxy` writes it together. */
  method BuildRequest(host: Text, port: Port, credentials: Option<Text>) returns (request: Text)
    ensures request == Request(host, port, credentials)
  {
    var authority := Authority(host, port);
    var first, second := RequestLine(authority), HostLine(authority);
    request := first + CRLF + (second + CRLF) + (KEEP_ALIVE + CRLF);
    ThreeLines(first, second, KEEP_ALIVE);
    ghost var lines := [first, second, KEEP_ALIVE];
    if credentials.Some? {
      var line := CredentialsLine(credentials.value);
      LinesSnoc(lines, line);
      assert RequestLines(host, port, credentials) == lines + [line];
      request := request + (line + CRLF);
    } else {
      assert RequestLines(host, port, credentials) == lines;
    }
    request := request + CRLF;
  }

  /** `connect_http_proxy`, once the connection to the proxy is open */
  method ConnectHttp(stream: Stream, host: Text, port: Port, credentials: Option<Text>)
    returns (r: Result<(), ProxyError>)
    modifies stream
    ensures stream.sent == old(stream.sent) + Request(host, port, credentials)
    ensures var read := ReadHead(old(stream.unread), 0);
      read.0 <= |old(stream.unread)| && stream.unread == old(stream.unread)[read.0..] && r == read.1
  {
    ghost var input := stream.unread;
    ReadHeadReads(input, 0);
    var request := BuildRequest(host, port, credentials);
    stream.WriteAll(request);
    var response: Text := [];
    while !EndsHead(response, |response|)
      invariant |response| <= |input| && |response| <= MAX_RESPONSE
      invariant response == input[..|response|] && stream.unread == input[|response|..]
      invariant stream.sent == old(stream.sent) + Request(host, port, credentials)
      invariant ReadHead(input, |response|) == ReadHead(input, 0)
      decreases MAX_RESPONSE - |response|
    {
      var byte := stream.ReadByte();
      if byte.None? { return Err(Closed); }
      response := response + [byte.value];
      if |response| > MAX_RESPONSE { return Err(ResponseTooLarge); }
    }
    if Accepting(response) { r := Ok(()); } else { r := Err(ConnectRefused(response)); }
  }
}
