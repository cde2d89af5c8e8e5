/** The SOCKS5 client handshake (RFC 1928, RFC 1929): what it sends, what it reads, and its agreement
    with a conforming server. */
module Socks5 {
  import opened Text
  import opened Streams

  datatype ProxyTarget = ProxyTarget(username: Option<Text>, password: Option<Text>)

  type Port = n: nat | n < 0x1_0000

  // ---- messages ----

  function Greeting(target: ProxyTarget): Text {
    if target.username.Some? then [Byte(5), Byte(2), Byte(0), Byte(2)] else [Byte(5), Byte(1), Byte(0)]
  }

  function Username(target: ProxyTarget): Text {
    if target.username.Some? then target.username.value else []
  }

  function Password(target: ProxyTarget): Text {
    if target.password.Some? then target.password.value else []
  }

  predicate CredentialsFit(target: ProxyTarget) {
    |Username(target)| <= 255 && |Password(target)| <= 255
  }

  function AuthRequest(target: ProxyTarget): Text
    requires CredentialsFit(target)
  {
    [Byte(1), Byte(|Username(target)|)] + Username(target) + [Byte(|Password(target)|)] + Password(target)
  }

  function ConnectRequest(host: Text, port: Port): Text
    requires |host| <= 255
  {
    [Byte(5), Byte(1), Byte(0), Byte(3), Byte(|host|)] + host + [Byte(port / 256), Byte(port % 256)]
  }

  // ---- the client, as a function of the bytes it receives ----

  /** What has been sent at the end, what is left unread, and the result. */
  datatype Outcome = Outcome(sent: Text, rest: Text, result: Result<(), ProxyError>)

  function SkipBytes(sent: Text, n: nat, input: Text): Outcome {
    if |input| < n then Outcome(sent, [], Err(Closed)) else Outcome(sent, input[n..], Ok(()))
  }

  function ReadBoundAddress(sent: Text, atyp: byte, input: Text): Outcome {
    if Code(atyp) == 1 then SkipBytes(sent, 6, input)
    else if Code(atyp) == 3 then
      if |input| < 1 then Outcome(sent, [], Err(Closed)) else SkipBytes(sent, Code(input[0]) + 2, input[1..])
    else if Code(atyp) == 4 then SkipBytes(sent, 18, input)
    else Outcome(sent, input, Err(UnsupportedAddressType(atyp)))
  }

  function RequestConnect(sent: Text, host: Text, port: Port, input: Text): Outcome {
    if |host| > 255 then Outcome(sent, input, Err(HostTooLong))
    else
      var s := sent + ConnectRequest(host, port);
      if |input| < 4 then Outcome(s, [], Err(Closed))
      else if Code(input[0]) != 5 || Code(input[1]) != 0 then Outcome(s, input[4..], Err(ConnectFailed))
      else ReadBoundAddress(s, input[3], input[4..])
  }

  function Authenticate(sent: Text, target: ProxyTarget, input: Text): Outcome {
    if !CredentialsFit(target) then Outcome(sent, input, Err(CredentialsTooLong))
    else
      var s := sent + AuthRequest(target);
      if |input| < 2 then Outcome(s, [], Err(Closed))
      else if Code(input[0]) == 1 && Code(input[1]) == 0 then Outcome(s, input[2..], Ok(()))
      else Outcome(s, input[2..], Err(AuthenticationFailed))
  }

  /** The second half of the handshake, if the first half went well. */
  function Then(first: Outcome, host: Text, port: Port): Outcome {
    if first.result.Ok? then RequestConnect(first.sent, host, port, first.rest) else first
  }

  function Negotiate(sent: Text, target: ProxyTarget, input: Text): Outcome {
    var s := sent + Greeting(target);
    if |input| < 2 then Outcome(s, [], Err(Closed))
    else if Code(input[0]) != 5 then Outcome(s, input[2..], Err(InvalidVersion))
    else if Code(input[1]) == 0 then Outcome(s, input[2..], Ok(()))
    else if Code(input[1]) == 2 then Authenticate(s, target, input[2..])
    else if Code(input[1]) == 0xff then Outcome(s, input[2..], Err(MethodsRejected))
    else Outcome(s, input[2..], Err(UnsupportedMethod(input[1])))
  }

  function Handshake(sent: Text, target: ProxyTarget, host: Text, port: Port, input: Text): Outcome {
    Then(Negotiate(sent, target, input), host, port)
  }

  // ---- the client, as it runs ----

  /** `read_socks5_bound_address` */
  method ReadSocks5BoundAddress(stream: Stream, atyp: byte) returns (r: Result<(), ProxyError>)
    modifies stream
    ensures Outcome(stream.sent, stream.unread, r) == ReadBoundAddress(old(stream.sent), atyp, old(stream.unread))
  {
    if Code(atyp) == 1 {
      var ignored := stream.ReadExact(6);
      if ignored.Err? { return Err(ignored.error); }
    } else if Code(atyp) == 3 {
      var len := stream.ReadExact(1);
      if len.Err? { return Err(len.error); }
      var ignored := stream.ReadExact(Code(len.value[0]) + 2);
      if ignored.Err? { return Err(ignored.error); }
    } else if Code(atyp) == 4 {
      var ignored := stream.ReadExact(18);
      if ignored.Err? { return Err(ignored.error); }
    } else {
      return Err(UnsupportedAddressType(atyp));
    }
    r := Ok(());
  }

  /** `authenticate_socks5` */
  method AuthenticateSocks5(stream: Stream, target: ProxyTarget) returns (r: Result<(), ProxyError>)
    modifies stream
    ensures Outcome(stream.sent, stream.unread, r) == Authenticate(old(stream.sent), target, old(stream.unread))
  {
    var username, password := Username(target), Password(target);
    if |username| > 255 || |password| > 255 { return Err(CredentialsTooLong); }
    var request: Text := [Byte(1)];
    request := request + [Byte(|username|)];
    request := request + username;
    request := request + [Byte(|password|)];
    request := request + password;
    assert request == AuthRequest(target);
    stream.WriteAll(request);
    var response := stream.ReadExact(2);
    if response.Err? { return Err(response.error); }
    if response.value == [Byte(1), Byte(0)] { return Ok(()); }
    r := Err(AuthenticationFailed);
  }

  /** `connect_socks5_proxy`, once the connection to the proxy is open: up to the chosen method */
  method NegotiateSocks5(stream: Stream, target: ProxyTarget) returns (r: Result<(), ProxyError>)
    modifies stream
    ensures Outcome(stream.sent, stream.unread, r) == Negotiate(old(stream.sent), target, old(stream.unread))
  {
    stream.WriteAll(Greeting(target));
    var reply := stream.ReadExact(2);
    if reply.Err? { return Err(reply.error); }
    if Code(reply.value[0]) != 5 { return Err(InvalidVersion); }
    var chosen := reply.value[1];
    if Code(chosen) == 0 {
      r := Ok(());
    } else if Code(chosen) == 2 {
      r := AuthenticateSocks5(stream, target);
    } else if Code(chosen) == 0xff {
      r := Err(MethodsRejected);
    } else {
      r := Err(UnsupportedMethod(chosen));
    }
  }

  /** `connect_socks5_proxy` */
  method ConnectSocks5(stream: Stream, target: ProxyTarget, host: Text, port: Port) returns (r: Result<(), ProxyError>)
    modifies stream
    ensures Outcome(stream.sent, stream.unread, r)
         == Handshake(old(stream.sent), target, host, port, old(stream.unread))
  {
    r := NegotiateSocks5(stream, target);
    if r.Err? { return; }
    if |host| > 255 { return Err(HostTooLong); }
    var request: Text := [Byte(5), Byte(1), Byte(0), Byte(3), Byte(|host|)];
    request := request + host;
    request := request + [Byte(port / 256), Byte(port % 256)];
    stream.WriteAll(request);
    var header := stream.ReadExact(4);
    if header.Err? { return Err(header.error); }
    if Code(header.value[0]) != 5 || Code(header.value[1]) != 0 { return Err(ConnectFailed); }
    r := ReadSocks5BoundAddress(stream, header.value[3]);
  }

  // ---- more input never changes what has happened ----

  /** Outcome b is what outcome a becomes when x comes after the input. */
  ghost predicate Continues(a: Outcome, b: Outcome, x: Text) {
    && a.sent <= b.sent
    && (a.result != Err(Closed) ==> b == Outcome(a.sent, a.rest + x, a.result))
  }

  lemma SkipContinues(sent: Text, n: nat, input: Text, x: Text)
    ensures Continues(SkipBytes(sent, n, input), SkipBytes(sent, n, input + x), x)
  {
    if |input| >= n { assert (input + x)[n..] == input[n..] + x; }
  }

  lemma BoundAddressContinues(sent: Text, atyp: byte, input: Text, x: Text)
    ensures Continues(ReadBoundAddress(sent, atyp, input), ReadBoundAddress(sent, atyp, input + x), x)
  {
    SkipContinues(sent, 6, input, x);
    SkipContinues(sent, 18, input, x);
    if |input| >= 1 {
      assert (input + x)[1..] == input[1..] + x;
      SkipContinues(sent, Code(input[0]) + 2, input[1..], x);
    }
  }

  lemma RequestContinues(sent: Text, host: Text, port: Port, input: Text, x: Text)
    ensures Continues(RequestConnect(sent, host, port, input), RequestConnect(sent, host, port, input + x), x)
  {
    if |host| <= 255 && |input| >= 4 {
      assert (input + x)[4..] == input[4..] + x;
      BoundAddressContinues(sent + ConnectRequest(host, port), input[3], input[4..], x);
    }
  }

  lemma AuthenticateContinues(sent: Text, target: ProxyTarget, input: Text, x: Text)
    ensures Continues(Authenticate(sent, target, input), Authenticate(sent, target, input + x), x)
  {
    if |input| >= 2 { assert (input + x)[2..] == input[2..] + x; }
  }

  lemma NegotiateContinues(sent: Text, target: ProxyTarget, input: Text, x: Text)
    ensures Continues(Negotiate(sent, target, input), Negotiate(sent, target, input + x), x)
  {
    if |input| >= 2 {
      assert (input + x)[2..] == input[2..] + x;
      AuthenticateContinues(sent + Greeting(target), target, input[2..], x);
    }
  }

  lemma RequestSends(sent: Text, host: Text, port: Port, input: Text)
    ensures sent <= RequestConnect(sent, host, port, input).sent
  {
  }

  /** Bytes that come after an outcome is decided are left unread and change nothing. */
  lemma HandshakeContinues(sent: Text, target: ProxyTarget, host: Text, port: Port, input: Text, x: Text)
    ensures Continues(Handshake(sent, target, host, port, input), Handshake(sent, target, host, port, input + x), x)
  {
    NegotiateContinues(sent, target, input, x);
    var first, first' := Negotiate(sent, target, input), Negotiate(sent, target, input + x);
    if first.result.Ok? {
      RequestContinues(first.sent, host, port, first.rest, x);
    } else if first'.result.Ok? {
      RequestSends(first'.sent, host, port, first'.rest);
    }
  }

  // ---- which replies lead to the tunnel ----

  /** A success reply: VER, REP 0, RSV, ATYP and a bound address of the length ATYP asks for. */
  predicate BoundReply(b: Text) {
    && |b| >= 5 && Code(b[0]) == 5 && Code(b[1]) == 0
    && match Code(b[3])
       case 1 => |b| == 4 + 6
       case 3 => |b| == 4 + 1 + Code(b[4]) + 2
       case 4 => |b| == 4 + 18
       case _ => false
  }

  /** Everything a proxy sends to open the tunnel. */
  predicate AcceptingReply(target: ProxyTarget, host: Text, reply: Text) {
    && |host| <= 255 && |reply| >= 2 && Code(reply[0]) == 5
    && (|| (Code(reply[1]) == 0 && BoundReply(reply[2..]))
        || (Code(reply[1]) == 2 && CredentialsFit(target) && |reply| >= 4
            && Code(reply[2]) == 1 && Code(reply[3]) == 0 && BoundReply(reply[4..])))
  }

  /** Everything the client sends to a proxy that chooses this method. */
  function FullSent(target: ProxyTarget, host: Text, port: Port, authenticated: bool): Text
    requires |host| <= 255 && (authenticated ==> CredentialsFit(target))
  {
    Greeting(target) + (if authenticated then AuthRequest(target) else []) + ConnectRequest(host, port)
  }

  lemma BoundReplyAccepted(sent: Text, host: Text, port: Port, b: Text)
    requires |host| <= 255 && BoundReply(b)
    ensures RequestConnect(sent, host, port, b) == Outcome(sent + ConnectRequest(host, port), [], Ok(()))
  {
    assert b[4..][0] == b[4];
  }

  /** An accepting reply opens the tunnel and is read to its end. */
  lemma AcceptingReplyOpens(target: ProxyTarget, host: Text, port: Port, reply: Text)
    requires AcceptingReply(target, host, reply)
    ensures Handshake([], target, host, port, reply)
         == Outcome(FullSent(target, host, port, Code(reply[1]) == 2), [], Ok(()))
  {
    var g := Greeting(target);
    assert [] + g == g;
    if Code(reply[1]) == 0 {
      assert g + [] == g;
      BoundReplyAccepted(g, host, port, reply[2..]);
    } else {
      assert reply[2..][2..] == reply[4..];
      BoundReplyAccepted(g + AuthRequest(target), host, port, reply[4..]);
    }
  }

  lemma BoundReplyRead(sent: Text, host: Text, port: Port, input: Text) returns (n: nat)
    requires RequestConnect(sent, host, port, input).result.Ok?
    ensures |host| <= 255 && n <= |input| && n <= 262 && BoundReply(input[..n])
    ensures RequestConnect(sent, host, port, input).rest == input[n..]
  {
    n := if Code(input[3]) == 1 then 10 else if Code(input[3]) == 4 then 22 else 7 + Code(input[4]);
    assert input[4..][n - 4..] == input[n..];
    if Code(input[3]) == 3 { assert input[4..][1..][n - 5..] == input[n..]; }
  }

  /** The tunnel is reached exactly on an accepting reply; exactly that reply is read, at most 266 bytes,
      and nothing of what follows it. */
  lemma TunnelIffAcceptingReply(target: ProxyTarget, host: Text, port: Port, input: Text)
    ensures Handshake([], target, host, port, input).result.Ok? <==>
      exists n :: 0 <= n <= |input| && AcceptingReply(target, host, input[..n])
    ensures forall n :: 0 <= n <= |input| && AcceptingReply(target, host, input[..n]) ==>
      n <= 266 && Handshake([], target, host, port, input)
        == Outcome(FullSent(target, host, port, Code(input[1]) == 2), input[n..], Ok(()))
  {
    if Handshake([], target, host, port, input).result.Ok? {
      var k := ReplyRead(target, host, port, input);
    }
    forall n | 0 <= n <= |input| && AcceptingReply(target, host, input[..n])
      ensures n <= 266 && Handshake([], target, host, port, input)
        == Outcome(FullSent(target, host, port, Code(input[1]) == 2), input[n..], Ok(()))
    {
      AcceptingReplyOpens(target, host, port, input[..n]);
      HandshakeContinues([], target, host, port, input[..n], input[n..]);
      assert input[..n] + input[n..] == input && [] + input[n..] == input[n..];
      ReplyLength(target, host, input[..n]);
    }
  }

  lemma ReplyLength(target: ProxyTarget, host: Text, reply: Text)
    requires AcceptingReply(target, host, reply)
    ensures |reply| <= 266
  {
  }

  lemma ReplyRead(target: ProxyTarget, host: Text, port: Port, input: Text) returns (n: nat)
    requires Handshake([], target, host, port, input).result.Ok?
    ensures n <= |input| && AcceptingReply(target, host, input[..n])
  {
    var first := Negotiate([], target, input);
    var k := BoundReplyRead(first.sent, host, port, first.rest);
    if Code(input[1]) == 0 {
      n := k + 2;
      assert input[..n][2..] == input[2..][..k];
    } else {
      n := k + 4;
      assert input[2..][2..] == input[4..];
      assert input[..n][4..] == input[4..][..k];
    }
  }

  // ---- everything that can come of a handshake ----

  /** User name and password, where there are any, have at most 255 bytes each. */
  predicate ShortCredentials(target: ProxyTarget) {
    && (target.username.Some? ==> |target.username.value| <= 255)
    && (target.password.Some? ==> |target.password.value| <= 255)
  }

  /** The proxy has chosen a method. */
  predicate Chose(input: Text, code: int) {
    |input| >= 2 && Code(input[0]) == 5 && Code(input[1]) == code
  }

  /** How many bytes choose a method and, if it is the login, accept it. */
  function NegotiationEnd(target: ProxyTarget, input: Text): (end: Option<nat>)
    ensures end.Some? ==> end.value <= |input|
  {
    if Chose(input, 0) then Some(2)
    else if Chose(input, 2) && ShortCredentials(target) && |input| >= 4 && Code(input[2]) == 1 && Code(input[3]) == 0
    then Some(4)
    else None
  }

  function HandshakeError(target: ProxyTarget, host: Text, port: Port, input: Text): Option<ProxyError> {
    match Handshake([], target, host, port, input).result
    case Ok(_) => None
    case Err(e) => Some(e)
  }

  /** What goes wrong before a method is agreed on; anything else is that the connection is closed too early. */
  lemma NegotiationErrors(target: ProxyTarget, host: Text, port: Port, input: Text)
    ensures var e := HandshakeError(target, host, port, input);
      && (e == Some(InvalidVersion) <==> |input| >= 2 && Code(input[0]) != 5)
      && (e == Some(MethodsRejected) <==> Chose(input, 255))
      && (forall c :: e == Some(UnsupportedMethod(c)) <==> Chose(input, Code(c)) && Code(c) !in {0, 2, 255})
      && (e == Some(CredentialsTooLong) <==> Chose(input, 2) && !ShortCredentials(target))
      && (e == Some(AuthenticationFailed) <==>
            Chose(input, 2) && ShortCredentials(target) && |input| >= 4
            && !(Code(input[2]) == 1 && Code(input[3]) == 0))
  {
  }

  /** An error that can come only after the negotiation. */
  predicate Late(e: ProxyError) {
    e.HostTooLong? || e.ConnectFailed? || e.UnsupportedAddressType?
  }

  lemma NoLateError(target: ProxyTarget, host: Text, port: Port, input: Text)
    requires NegotiationEnd(target, input).None?
    ensures var e := HandshakeError(target, host, port, input); e.Some? && !Late(e.value)
  {
  }

  lemma AfterNegotiation(target: ProxyTarget, host: Text, port: Port, input: Text) returns (sent: Text)
    requires NegotiationEnd(target, input).Some?
    ensures sent == Greeting(target) + (if Chose(input, 2) then AuthRequest(target) else [])
    ensures Handshake([], target, host, port, input)
         == RequestConnect(sent, host, port, input[NegotiationEnd(target, input).value..])
  {
    var first := Negotiate([], target, input);
    sent := first.sent;
    assert [] + Greeting(target) == Greeting(target);
    if Chose(input, 2) { assert input[2..][2..] == input[4..]; }
  }

  lemma BeforeNegotiation(target: ProxyTarget, host: Text, port: Port, input: Text)
    requires NegotiationEnd(target, input).None?
    ensures Handshake([], target, host, port, input).sent
         == Greeting(target) + (if Chose(input, 2) && ShortCredentials(target) then AuthRequest(target) else [])
  {
    assert [] + Greeting(target) == Greeting(target);
  }

  /** What goes wrong after that, with the proxy's answer from the n-th byte on. */
  lemma RequestErrors(target: ProxyTarget, host: Text, port: Port, input: Text)
    requires NegotiationEnd(target, input).Some?
    ensures var e, answer := HandshakeError(target, host, port, input), input[NegotiationEnd(target, input).value..];
      && (e == Some(HostTooLong) <==> |host| > 255)
      && (e == Some(ConnectFailed) <==>
            |host| <= 255 && |answer| >= 4 && !(Code(answer[0]) == 5 && Code(answer[1]) == 0))
      && (forall c :: e == Some(UnsupportedAddressType(c)) <==>
            |host| <= 255 && |answer| >= 4 && Code(answer[0]) == 5 && Code(answer[1]) == 0
            && answer[3] == c && Code(c) !in {1, 3, 4})
      && (e.Some? ==> Late(e.value) || e.value == Closed)
  {
    var sent := AfterNegotiation(target, host, port, input);
  }

  /** Credentials are sent only to a proxy that asks for them, and the host only after the negotiation. */
  lemma HandshakeSends(target: ProxyTarget, host: Text, port: Port, input: Text)
    ensures Handshake([], target, host, port, input).sent == Greeting(target)
      + (if Chose(input, 2) && ShortCredentials(target) then AuthRequest(target) else [])
      + (if NegotiationEnd(target, input).Some? && |host| <= 255 then ConnectRequest(host, port) else [])
  {
    if NegotiationEnd(target, input).Some? {
      var sent := AfterNegotiation(target, host, port, input);
    } else {
      BeforeNegotiation(target, host, port, input);
    }
  }
}
