/** The SOCKS5 client run against a conforming server, with messages cut up and delayed in any way. */
module Socks5Agreement {
  import opened Text
  import opened Streams
  import opened Socks5

  // ---- a conforming server (RFC 1928 sections 3, 4 and 6; RFC 1929 section 2) ----

  /** The server picks a method among those offered and answers an accepted request with its bound address. */
  datatype Server = Server(choose: Text -> byte, bound: Text)

  /** It picks one of the offered methods, 0 or 2, and its success reply has the length its ATYP asks for. */
  ghost predicate Conforming(server: Server) {
    BoundReply(server.bound) && forall offered :: Offer(offered) ==> server.choose(offered) in offered
  }

  /** Methods 0 and 2, at least the former. */
  ghost predicate Offer(offered: Text) {
    Byte(0) in offered && forall b :: b in offered ==> b == Byte(0) || b == Byte(2)
  }

  datatype Parsed<T> = Parsed(value: T, rest: Text)

  /** VER, NMETHODS, METHODS */
  function ParseGreeting(r: Text): Option<Parsed<Text>> {
    if |r| >= 2 && Code(r[0]) == 5 && |r| >= 2 + Code(r[1])
    then Some(Parsed(r[2..2 + Code(r[1])], r[2 + Code(r[1])..])) else None
  }

  /** VER, ULEN, UNAME, PLEN, PASSWD */
  function ParseAuth(r: Text): Option<Parsed<(Text, Text)>> {
    if |r| >= 2 && Code(r[0]) == 1 && |r| >= 3 + Code(r[1]) then
      var m := 2 + Code(r[1]);
      var n := m + 1 + Code(r[m]);
      if |r| >= n then Some(Parsed((r[2..m], r[m + 1..n]), r[n..])) else None
    else None
  }

  /** VER, CMD CONNECT, RSV, ATYP DOMAINNAME, length, name, big-endian port */
  function ParseConnect(r: Text): Option<Parsed<(Text, Port)>> {
    if |r| >= 5 && Code(r[0]) == 5 && Code(r[1]) == 1 && Code(r[2]) == 0 && Code(r[3]) == 3
      && |r| >= 7 + Code(r[4])
    then
      var n := 5 + Code(r[4]);
      Some(Parsed((r[5..n], 256 * Code(r[n]) + Code(r[n + 1])), r[n + 2..]))
    else None
  }

  /** What the server has understood of the bytes received so far. */
  datatype Session =
    | Waiting
    | Chosen(chosen: byte)
    | LoggedIn(credentials: (Text, Text))
    | Connected(login: Option<(Text, Text)>, host: Text, port: Port, rest: Text)

  function UnderstandConnect(waiting: Session, login: Option<(Text, Text)>, r: Text): Session {
    match ParseConnect(r)
    case Some(p) => Connected(login, p.value.0, p.value.1, p.rest)
    case None => waiting
  }

  function UnderstandLogin(r: Text): Session {
    match ParseAuth(r)
    case None => Chosen(Byte(2))
    case Some(a) => UnderstandConnect(LoggedIn(a.value), Some(a.value), a.rest)
  }

  function Understand(server: Server, received: Text): Session {
    match ParseGreeting(received)
    case None => Waiting
    case Some(g) =>
      var chosen := server.choose(g.value);
      if chosen != Byte(2) then UnderstandConnect(Chosen(chosen), None, g.rest)
      else UnderstandLogin(g.rest)
  }

  function Answer(server: Server, session: Session): Text {
    match session
    case Waiting => []
    case Chosen(c) => [Byte(5), c]
    case LoggedIn(_) => [Byte(5), Byte(2), Byte(1), Byte(0)]
    case Connected(None, _, _, _) => [Byte(5), Byte(0)] + server.bound
    case Connected(Some(_), _, _, _) => [Byte(5), Byte(2), Byte(1), Byte(0)] + server.bound
  }

  /** Everything the server has answered to the bytes received so far; every login is accepted. */
  function Replies(server: Server, received: Text): Text {
    Answer(server, Understand(server, received))
  }

  // ---- the server reads what the client writes ----

  lemma GreetingParses(target: ProxyTarget, x: Text)
    ensures ParseGreeting(Greeting(target) + x) == Some(Parsed(Greeting(target)[2..], x))
  {
    var g := Greeting(target);
    var r := g + x;
    assert r[0] == g[0] && r[1] == g[1];
    assert r[2..|g|] == g[2..] && r[|g|..] == x;
  }

  lemma AuthParses(target: ProxyTarget, x: Text)
    requires CredentialsFit(target)
    ensures ParseAuth(AuthRequest(target) + x) == Some(Parsed((Username(target), Password(target)), x))
  {
    var u, p, r := Username(target), Password(target), AuthRequest(target) + x;
    var m := 2 + |u|;
    assert r[0] == Byte(1) && r[1] == Byte(|u|) && r[m] == Byte(|p|);
    assert r[2..m] == u && r[m + 1..m + 1 + |p|] == p && r[m + 1 + |p|..] == x;
  }

  lemma ConnectParses(host: Text, port: Port, x: Text)
    requires |host| <= 255
    ensures ParseConnect(ConnectRequest(host, port) + x) == Some(Parsed((host, port), x))
  {
    var r := ConnectRequest(host, port) + x;
    var n := 5 + |host|;
    assert r[0] == Byte(5) && r[1] == Byte(1) && r[2] == Byte(0) && r[3] == Byte(3) && r[4] == Byte(|host|);
    assert r[n] == Byte(port / 256) && r[n + 1] == Byte(port % 256);
    assert r[5..n] == host && r[n + 2..] == x;
  }

  // ---- the whole exchange ----

  /** The parameters of a client, a server and the connection asked for. */
  datatype Exchange = Exchange(target: ProxyTarget, host: Text, port: Port, server: Server)

  ghost predicate ValidExchange(e: Exchange) {
    |e.host| <= 255 && CredentialsFit(e.target) && Conforming(e.server)
  }

  function Authenticated(e: Exchange): bool {
    e.server.choose(Greeting(e.target)[2..]) == Byte(2)
  }

  function Client(e: Exchange, received: Text): Outcome {
    Handshake([], e.target, e.host, e.port, received)
  }

  function AllSent(e: Exchange): Text
    requires |e.host| <= 255 && CredentialsFit(e.target)
  {
    FullSent(e.target, e.host, e.port, Authenticated(e))
  }

  function MethodReply(e: Exchange): Text {
    [Byte(5), if Authenticated(e) then Byte(2) else Byte(0)]
  }

  function LoginReply(e: Exchange): Text {
    MethodReply(e) + (if Authenticated(e) then [Byte(1), Byte(0)] else [])
  }

  function AllReplies(e: Exchange): Text {
    LoginReply(e) + e.server.bound
  }

  lemma ServerChooses(e: Exchange)
    requires ValidExchange(e)
    ensures var c := e.server.choose(Greeting(e.target)[2..]); c == if Authenticated(e) then Byte(2) else Byte(0)
  {
    var offered := Greeting(e.target)[2..];
    assert offered[0] == Byte(0);
    assert offered == [Byte(0)] || offered == [Byte(0), Byte(2)];
    assert Offer(offered);
  }

  /** After the greeting the server answers with its method. */
  lemma AnswersGreeting(e: Exchange)
    requires ValidExchange(e)
    ensures Replies(e.server, Greeting(e.target)) == MethodReply(e)
  {
    ServerChooses(e);
    GreetingParses(e.target, []);
    assert Greeting(e.target) + [] == Greeting(e.target);
  }

  /** After the login it answers that, too. */
  lemma AnswersLogin(e: Exchange)
    requires ValidExchange(e) && Authenticated(e)
    ensures Replies(e.server, Greeting(e.target) + AuthRequest(e.target)) == LoginReply(e)
  {
    LoginParses(e.target);
    LoginIsAnswered(e.server, Greeting(e.target) + AuthRequest(e.target));
  }

  lemma LoginParses(target: ProxyTarget)
    requires CredentialsFit(target)
    ensures var g := ParseGreeting(Greeting(target) + AuthRequest(target));
      g.Some? && g.value.value == Greeting(target)[2..]
      && ParseAuth(g.value.rest).Some? && ParseAuth(g.value.rest).value.rest == []
  {
    GreetingParses(target, AuthRequest(target));
    AuthParses(target, []);
    assert AuthRequest(target) + [] == AuthRequest(target);
  }

  lemma LoginIsAnswered(server: Server, r: Text)
    requires ParseGreeting(r).Some? && server.choose(ParseGreeting(r).value.value) == Byte(2)
    requires ParseAuth(ParseGreeting(r).value.rest).Some? && ParseAuth(ParseGreeting(r).value.rest).value.rest == []
    ensures Replies(server, r) == [Byte(5), Byte(2), Byte(1), Byte(0)]
  {
  }

  function Login(e: Exchange): Option<(Text, Text)> {
    if Authenticated(e) then Some((Username(e.target), Password(e.target))) else None
  }

  /** At the end the server has understood exactly what the client was asked to send. */
  lemma UnderstandsAll(e: Exchange, x: Text)
    requires ValidExchange(e)
    ensures Understand(e.server, AllSent(e) + x) == Connected(Login(e), e.host, e.port, x)
  {
    ServerChooses(e);
    ConnectParses(e.host, e.port, x);
    if Authenticated(e) { UnderstandsLogin(e, x); } else { UnderstandsRequest(e, x); }
  }

  lemma UnderstandsLogin(e: Exchange, x: Text)
    requires |e.host| <= 255 && CredentialsFit(e.target) && Authenticated(e)
    ensures Understand(e.server, AllSent(e) + x) == Connected(Login(e), e.host, e.port, x)
  {
    var g, a, c := Greeting(e.target), AuthRequest(e.target), ConnectRequest(e.host, e.port);
    SentInPieces(g, a, c, x);
    GreetingParses(e.target, a + (c + x));
    AuthParses(e.target, c + x);
    ConnectParses(e.host, e.port, x);
  }

  lemma SentInPieces(g: Text, a: Text, c: Text, x: Text)
    ensures g + a + c + x == g + (a + (c + x))
  {
  }

  lemma UnderstandsRequest(e: Exchange, x: Text)
    requires |e.host| <= 255 && CredentialsFit(e.target) && !Authenticated(e)
    requires e.server.choose(Greeting(e.target)[2..]) == Byte(0)
    ensures Understand(e.server, AllSent(e) + x) == Connected(Login(e), e.host, e.port, x)
  {
    var g, c := Greeting(e.target), ConnectRequest(e.host, e.port);
    assert AllSent(e) == g + c;
    ConcatAssoc(g, c, x);
    GreetingParses(e.target, c + x);
    ConnectParses(e.host, e.port, x);
  }

  lemma AnswersAll(e: Exchange)
    requires ValidExchange(e)
    ensures Replies(e.server, AllSent(e)) == AllReplies(e)
  {
    var s := AllSent(e);
    UnderstandsAll(e, []);
    assert s + [] == s;
    ConnectionIsAnswered(e);
  }

  lemma ConnectionIsAnswered(e: Exchange)
    ensures Answer(e.server, Connected(Login(e), e.host, e.port, [])) == AllReplies(e)
  {
  }

  lemma AllRepliesAccept(e: Exchange)
    requires ValidExchange(e)
    ensures AcceptingReply(e.target, e.host, AllReplies(e))
    ensures Code(AllReplies(e)[1]) == (if Authenticated(e) then 2 else 0)
  {
    var r := AllReplies(e);
    assert r[0] == Byte(5);
    if Authenticated(e) { assert r[2] == Byte(1) && r[3] == Byte(0) && r[4..] == e.server.bound; }
    else { assert r[2..] == e.server.bound; }
  }

  /** Given all replies, the client has sent everything and has reached the tunnel. */
  lemma ClientCompletes(e: Exchange)
    requires ValidExchange(e)
    ensures Client(e, AllReplies(e)) == Outcome(AllSent(e), [], Ok(()))
  {
    AllRepliesAccept(e);
    AcceptingReplyOpens(e.target, e.host, e.port, AllReplies(e));
  }

  // ---- both sides only ever add to what they have said ----

  lemma ClientMonotone(e: Exchange, r: Text, r': Text)
    requires r <= r'
    ensures Client(e, r).sent <= Client(e, r').sent
  {
    var x := r'[|r|..];
    assert r' == r + x;
    HandshakeContinues([], e.target, e.host, e.port, r, x);
  }

  lemma ParsesStay(r: Text, x: Text)
    ensures ParseGreeting(r).Some? ==>
      ParseGreeting(r + x) == Some(Parsed(ParseGreeting(r).value.value, ParseGreeting(r).value.rest + x))
    ensures ParseConnect(r).Some? ==>
      ParseConnect(r + x) == Some(Parsed(ParseConnect(r).value.value, ParseConnect(r).value.rest + x))
  {
    var s := r + x;
    if ParseGreeting(r).Some? {
      var n := 2 + Code(r[1]);
      assert s[2..n] == r[2..n] && s[n..] == r[n..] + x;
    }
    if ParseConnect(r).Some? {
      var n := 5 + Code(r[4]);
      assert s[5..n] == r[5..n] && s[n + 2..] == r[n + 2..] + x;
    }
  }

  lemma AuthStays(r: Text, x: Text)
    ensures ParseAuth(r).Some? ==>
      ParseAuth(r + x) == Some(Parsed(ParseAuth(r).value.value, ParseAuth(r).value.rest + x))
  {
    var s := r + x;
    if ParseAuth(r).Some? {
      var m := 2 + Code(r[1]);
      var n := m + 1 + Code(r[m]);
      assert s[2..m] == r[2..m] && s[m + 1..n] == r[m + 1..n] && s[n..] == r[n..] + x;
    }
  }

  lemma ConnectAnswerStays(server: Server, waiting: Session, login: Option<(Text, Text)>, r: Text, x: Text)
    requires waiting == if login.Some? then LoggedIn(login.value) else Chosen(Byte(0))
    ensures Answer(server, waiting) <= Answer(server, UnderstandConnect(waiting, login, r))
         <= Answer(server, UnderstandConnect(waiting, login, r + x))
  {
    ParsesStay(r, x);
  }

  lemma LoginAnswerStays(server: Server, r: Text, x: Text)
    ensures Answer(server, UnderstandLogin(r)) <= Answer(server, UnderstandLogin(r + x))
    ensures Answer(server, Chosen(Byte(2))) <= Answer(server, UnderstandLogin(r))
  {
    AuthStays(r, x);
    if ParseAuth(r).Some? {
      var a := ParseAuth(r).value;
      ConnectAnswerStays(server, LoggedIn(a.value), Some(a.value), a.rest, x);
    } else if ParseAuth(r + x).Some? {
      var a := ParseAuth(r + x).value;
      ConnectAnswerStays(server, LoggedIn(a.value), Some(a.value), a.rest, []);
    }
  }

  lemma RepliesMonotone(server: Server, s: Text, s': Text)
    requires s <= s'
    requires ParseGreeting(s).Some? ==> server.choose(ParseGreeting(s).value.value) in {Byte(0), Byte(2)}
    ensures Replies(server, s) <= Replies(server, s')
  {
    var x := s'[|s|..];
    assert s' == s + x;
    ParsesStay(s, x);
    if ParseGreeting(s).Some? {
      var g := ParseGreeting(s).value;
      if server.choose(g.value) == Byte(2) { LoginAnswerStays(server, g.rest, x); }
      else { ConnectAnswerStays(server, Chosen(Byte(0)), None, g.rest, x); }
    }
  }

  // ---- runs of the two over a network ----

  /** `sent` and `replied` are everything the client and the server have written; the server has taken in
      the first `served` bytes, the client the first `read`. */
  datatype Net = Net(sent: Text, served: nat, replied: Text, read: nat)

  function Start(e: Exchange): Net {
    Net(Client(e, []).sent, 0, [], 0)
  }

  /** The client takes in some more bytes that are there, and writes what it then writes. */
  ghost predicate ClientStep(e: Exchange, n: Net, n': Net) {
    n.read < n'.read <= |n.replied| && n' == n.(read := n'.read, sent := Client(e, n.replied[..n'.read]).sent)
  }

  ghost predicate ServerStep(e: Exchange, n: Net, n': Net) {
    n.served < n'.served <= |n.sent| && n' == n.(served := n'.served, replied := Replies(e.server, n.sent[..n'.served]))
  }

  ghost predicate Step(e: Exchange, n: Net, n': Net) {
    ClientStep(e, n, n') || ServerStep(e, n, n')
  }

  ghost predicate CanStep(e: Exchange, n: Net) {
    exists n' :: Step(e, n, n')
  }

  ghost predicate IsRun(e: Exchange, run: seq<Net>) {
    && run != [] && run[0] == Start(e)
    && forall i :: 0 <= i < |run| - 1 ==> Step(e, run[i], run[i + 1])
  }

  ghost predicate Invariant(e: Exchange, n: Net)
    requires ValidExchange(e)
  {
    && n.served <= |n.sent| && n.read <= |n.replied|
    && n.sent == Client(e, n.replied[..n.read]).sent && n.replied == Replies(e.server, n.sent[..n.served])
    && n.sent <= AllSent(e) && n.replied <= AllReplies(e)
  }

  lemma StartInvariant(e: Exchange)
    requires ValidExchange(e)
    ensures Invariant(e, Start(e))
  {
    ClientCompletes(e);
    ClientMonotone(e, [], AllReplies(e));
  }

  lemma StepInvariant(e: Exchange, n: Net, n': Net)
    requires ValidExchange(e) && Invariant(e, n) && Step(e, n, n')
    ensures Invariant(e, n') && n'.read + n'.served > n.read + n.served
  {
    if ClientStep(e, n, n') {
      ClientAdds(e, n.replied[..n.read], n.replied[..n'.read]);
      assert n'.sent[..n.served] == n.sent[..n.served];
    } else {
      ServerAdds(e, n.sent[..n.served], n.sent[..n'.served]);
      assert n'.replied[..n.read] == n.replied[..n.read];
    }
  }

  lemma ClientAdds(e: Exchange, r: Text, r': Text)
    requires ValidExchange(e) && r <= r' <= AllReplies(e)
    ensures Client(e, r).sent <= Client(e, r').sent <= AllSent(e)
  {
    ClientCompletes(e);
    ClientMonotone(e, r', AllReplies(e));
    ClientMonotone(e, r, r');
  }

  lemma ServerAdds(e: Exchange, s: Text, s': Text)
    requires ValidExchange(e) && s <= s' <= AllSent(e)
    ensures Replies(e.server, s) <= Replies(e.server, s') <= AllReplies(e)
  {
    AnswersAll(e);
    ChoiceOnPrefix(e, s);
    ChoiceOnPrefix(e, s');
    RepliesMonotone(e.server, s, s');
    RepliesMonotone(e.server, s', AllSent(e));
  }

  /** On what the client sends, the server only ever chooses method 0 or 2. */
  lemma ChoiceOnPrefix(e: Exchange, s: Text)
    requires ValidExchange(e) && s <= AllSent(e)
    ensures ParseGreeting(s).Some? ==> e.server.choose(ParseGreeting(s).value.value) in {Byte(0), Byte(2)}
  {
    var x := AllSent(e)[|s|..];
    assert AllSent(e) == s + x;
    ParsesStay(s, x);
    ServerChooses(e);
    AllSentGreets(e);
  }

  lemma AllSentGreets(e: Exchange)
    requires ValidExchange(e)
    ensures ParseGreeting(AllSent(e)).Some? && ParseGreeting(AllSent(e)).value.value == Greeting(e.target)[2..]
  {
    var g := Greeting(e.target);
    var a := if Authenticated(e) then AuthRequest(e.target) else [];
    var c := ConnectRequest(e.host, e.port);
    ConcatAssoc(g, a, c);
    GreetingParses(e.target, a + c);
  }

  /** Every state of every run satisfies the invariant, and runs are short. */
  lemma {:induction false} RunInvariant(e: Exchange, run: seq<Net>, i: nat)
    requires ValidExchange(e) && IsRun(e, run) && i < |run|
    ensures Invariant(e, run[i]) && run[i].read + run[i].served >= i
  {
    if i == 0 { StartInvariant(e); }
    else {
      RunInvariant(e, run, i - 1);
      assert run[i - 1 + 1] == run[i];
      StepInvariant(e, run[i - 1], run[i]);
    }
  }

  /** Nothing more can happen: both sides have taken in everything. */
  predicate Quiescent(n: Net) {
    n.read == |n.replied| && n.served == |n.sent|
  }

  /** When nothing more can happen, everything has been said. */
  lemma QuiescentIsComplete(e: Exchange, n: Net)
    requires ValidExchange(e) && Invariant(e, n) && Quiescent(n)
    ensures n.sent == AllSent(e) && n.replied == AllReplies(e)
  {
    assert n.replied[..n.read] == n.replied && n.sent[..n.served] == n.sent;
    ClientMonotone(e, [], n.replied);
    assert Greeting(e.target) <= n.sent by { assert [] + Greeting(e.target) == Greeting(e.target); }
    SaysMore(e, n, Greeting(e.target), MethodReply(e));
    if Authenticated(e) {
      ClientAuthenticates(e);
      SaysMore(e, n, Greeting(e.target) + AuthRequest(e.target), LoginReply(e));
    } else {
      assert LoginReply(e) == MethodReply(e);
    }
    ClientRequests(e);
    ClientMonotone(e, LoginReply(e), n.replied);
    AnswersAll(e);
  }

  lemma SaysMore(e: Exchange, n: Net, said: Text, reply: Text)
    requires ValidExchange(e) && Invariant(e, n) && Quiescent(n) && said <= n.sent
    requires (reply == MethodReply(e) && said == Greeting(e.target))
      || (Authenticated(e) && reply == LoginReply(e) && said == Greeting(e.target) + AuthRequest(e.target))
    ensures reply <= n.replied && Client(e, reply).sent <= n.sent
  {
    assert n.replied[..n.read] == n.replied && n.sent[..n.served] == n.sent;
    AnswersGreeting(e);
    if Authenticated(e) { AnswersLogin(e); }
    ChoiceOnPrefix(e, said);
    RepliesMonotone(e.server, said, n.sent);
    ClientMonotone(e, reply, n.replied);
  }

  lemma ClientAuthenticates(e: Exchange)
    requires ValidExchange(e) && Authenticated(e)
    ensures Client(e, MethodReply(e)).sent == Greeting(e.target) + AuthRequest(e.target)
  {
    assert [] + Greeting(e.target) == Greeting(e.target);
  }

  lemma ClientRequests(e: Exchange)
    requires ValidExchange(e)
    ensures Client(e, LoginReply(e)).sent == AllSent(e)
  {
    var g, r := Greeting(e.target), LoginReply(e);
    assert [] + g == g;
    assert g + [] == g;
    if Authenticated(e) { assert r[2..] == [Byte(1), Byte(0)]; }
  }

  /** Every run against a conforming server that has come to rest has opened the tunnel: the client has
      succeeded and left no byte unread, and the server has understood the client's host, port and, if it
      asked for them, user name and password. */
  lemma HandshakeAgreement(e: Exchange, run: seq<Net>)
    requires ValidExchange(e) && IsRun(e, run) && Quiescent(run[|run| - 1])
    ensures var n := run[|run| - 1];
      && Client(e, n.replied) == Outcome(n.sent, [], Ok(()))
      && Understand(e.server, n.sent) == Connected(Login(e), e.host, e.port, [])
  {
    var n := run[|run| - 1];
    RunInvariant(e, run, |run| - 1);
    QuiescentIsComplete(e, n);
    ClientCompletes(e);
    var s := AllSent(e);
    UnderstandsAll(e, []);
    assert s + [] == s;
  }

  /** A run that has not come to rest can go on, and no run is longer than all bytes together. */
  lemma RunsComeToRest(e: Exchange, run: seq<Net>)
    requires ValidExchange(e) && IsRun(e, run)
    ensures |run| <= |AllSent(e)| + |AllReplies(e)| + 1
    ensures !Quiescent(run[|run| - 1]) ==> CanStep(e, run[|run| - 1])
  {
    RunInvariant(e, run, |run| - 1);
    if !Quiescent(run[|run| - 1]) { NotAtRest(e, run[|run| - 1]); }
  }

  lemma NotAtRest(e: Exchange, n: Net)
    requires ValidExchange(e) && Invariant(e, n) && !Quiescent(n)
    ensures CanStep(e, n)
  {
    if n.read < |n.replied| {
      var n' := n.(read := |n.replied|, sent := Client(e, n.replied[..|n.replied|]).sent);
      assert Step(e, n, n');
    } else if n.served < |n.sent| {
      var n' := n.(served := |n.sent|, replied := Replies(e.server, n.sent[..|n.sent|]));
      assert Step(e, n, n');
    }
  }

  // ---- the offer and the login, on the parameters of the client ----

  /** The first thing a client sends offers no method but 0 and, exactly if it has a user name, 2. */
  lemma OfferIs(e: Exchange)
    ensures var g := ParseGreeting(Client(e, []).sent);
      g.Some? && g.value.rest == [] && Byte(0) in g.value.value
      && (Byte(2) in g.value.value <==> e.target.username.Some?)
      && forall b :: b in g.value.value ==> b == Byte(0) || b == Byte(2)
  {
    assert [] + Greeting(e.target) == Greeting(e.target);
    GreetingParses(e.target, []);
    assert Greeting(e.target) + [] == Greeting(e.target);
    assert Greeting(e.target)[2] == Byte(0);
    assert e.target.username.Some? ==> Greeting(e.target)[3] == Byte(2);
  }

  /** The server asks for a login whenever it is offered. */
  ghost predicate WantsLogin(server: Server) {
    forall offered :: Offer(offered) && Byte(2) in offered ==> server.choose(offered) == Byte(2)
  }

  lemma WantedLogin(e: Exchange)
    requires ValidExchange(e) && WantsLogin(e.server)
    ensures Authenticated(e) <==> e.target.username.Some?
  {
    var offered := Greeting(e.target)[2..];
    ServerChooses(e);
    assert offered[0] == Byte(0);
    assert offered == [Byte(0)] || offered == [Byte(0), Byte(2)];
    assert Offer(offered);
    if e.target.username.Some? { assert offered[1] == Byte(2); }
  }

  /** Every run against such a server that has come to rest ends connected, logged in with the client's user
      name and its password, or an empty one, if it has a user name, and without login if it has none. */
  lemma LoginAgreement(e: Exchange, run: seq<Net>)
    requires |e.host| <= 255 && ShortCredentials(e.target) && Conforming(e.server) && WantsLogin(e.server)
    requires IsRun(e, run) && Quiescent(run[|run| - 1])
    ensures var login := match e.target.username
        case Some(name) => Some((name, match e.target.password case Some(word) => word case None => []))
        case None => None;
      Understand(e.server, run[|run| - 1].sent) == Connected(login, e.host, e.port, [])
  {
    HandshakeAgreement(e, run);
    WantedLogin(e);
  }
}
