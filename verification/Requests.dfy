/** What a request host, a configured host and a suffix are read as: white space, ports, brackets, trailing
    dots and letter case. */
module Requests {
  import opened Text
  import opened Hosts
  import opened Letters
  import opened Spaces
  import opened Config
  import opened Routing
  import opened RoutingUndo

  predicate Digits(d: Text) {
    forall i :: 0 <= i < |d| ==> 48 <= Code(d[i]) <= 57
  }

  predicate Dots(d: Text) {
    forall i :: 0 <= i < |d| ==> Code(d[i]) == 46
  }

  // ---- normalised hosts ----

  lemma {:induction false} SkippedDots(s: Text, j: nat)
    requires j <= |s|
    ensures Dots(s[SkipByteBack(s, '.', j)..j])
  {
    if j > 0 && s[j - 1] == '.' {
      SkippedDots(s, j - 1);
      assert s[SkipByteBack(s, '.', j)..j] == s[SkipByteBack(s, '.', j)..j - 1] + [s[j - 1]];
    }
  }

  /** A normalised host is what is left between white space and trailing dots, in small letters. */
  lemma NormalizeHostIs(raw: Text) returns (a: Text, core: Text, dots: Text, b: Text)
    ensures raw == a + (core + dots) + b && Blank(a) && Blank(b) && Dots(dots)
    ensures !StartsWhite(core + dots) && !EndsWhite(core + dots) && (core == [] || Code(core[|core| - 1]) != 46)
    ensures SameLetters(core, NormalizeHost(raw)) && forall i :: 0 <= i < |core| ==> !Capital(NormalizeHost(raw)[i])
  {
    a, b := TrimIs(raw);
    var trimmed := Trim(raw);
    var n := SkipByteBack(trimmed, '.', |trimmed|);
    core, dots := trimmed[..n], trimmed[n..|trimmed|];
    assert trimmed == core + dots;
    SkippedDots(trimmed, |trimmed|);
    SkipByteBackStops(trimmed, '.', |trimmed|);
    LowerIs(core);
  }

  lemma {:induction false} SkipsDots(s: Text, n: nat, j: nat)
    requires n <= j <= |s| && Dots(s[n..j]) && (n == 0 || s[n - 1] != '.')
    ensures SkipByteBack(s, '.', j) == n
    decreases j
  {
    if n < j {
      assert s[j - 1] == s[n..j][j - 1 - n];
      assert s[n..j - 1] == s[n..j][..j - 1 - n];
      SkipsDots(s, n, j - 1);
    }
  }

  lemma HostIsBlack(h: Text, i: nat)
    requires i < |h| && IsHostByte(h[i])
    ensures Black(h[i])
  {
  }

  /** A plain host with white space around it, trailing dots and capital letters is read as that host. */
  lemma NormalizeHostOf(a: Text, h: Text, written: Text, dots: Text, b: Text)
    requires Blank(a) && Blank(b) && Dots(dots) && PlainHost(h) && SameLetters(h, written)
    ensures NormalizeHost(a + (written + dots) + b) == h
  {
    var s := written + dots;
    AsWritten(h, written);
    DotsEnd(written, dots);
    TrimOf(a, s, b);
    DotsComeOff(written, dots);
    EqFoldIff(h, written);
  }

  lemma DotsEnd(h: Text, dots: Text)
    requires HostShaped(h) && Dots(dots)
    ensures !StartsWhite(h + dots) && !EndsWhite(h + dots)
  {
    var s := h + dots;
    assert s[0] == h[0] && s[|s| - 1] == if dots == [] then h[|h| - 1] else dots[|dots| - 1];
    HostIsBlack(h, 0);
    HostIsBlack(h, |h| - 1);
    BlackEnds(s);
  }

  lemma DotsComeOff(h: Text, dots: Text)
    requires h != [] && h[|h| - 1] != '.' && Dots(dots)
    ensures TrimEndByte(h + dots, '.') == h
  {
    var s := h + dots;
    assert s[|h|..|s|] == dots && s[..|h|] == h && s[|h| - 1] == h[|h| - 1];
    SkipsDots(s, |h|, |s|);
  }

  lemma NormalizeWritten(h: Text, written: Text)
    requires PlainHost(h) && SameLetters(h, written)
    ensures NormalizeHost(written) == h
  {
    BlankNothing();
    NormalizeHostOf([], h, written, [], []);
    NothingAround(written);
  }

  lemma NothingAround(s: Text)
    ensures [] + (s + []) + [] == s
  {
  }

  lemma AsWritten(h: Text, written: Text)
    requires PlainHost(h) && SameLetters(h, written)
    ensures AllHost(written) && written != [] && written[|written| - 1] != '.'
  {
    forall i | 0 <= i < |written| ensures IsHostByte(written[i]) && (written[i] == '.' <==> h[i] == '.') {
      assert SameLetter(h[i], written[i]) && IsHostByte(h[i]);
    }
  }

  /** A suffix may be written with its dot or without. */
  lemma SuffixOf(h: Text)
    requires PlainHost(h) && h[0] != '.'
    ensures NormalizeSuffix(h) == "." + h && NormalizeSuffix("." + h) == "." + h
  {
    PlainIsNormal(h);
    DottedIsPlain(h);
    PlainIsNormal("." + h);
  }

  lemma DottedIsPlain(h: Text)
    requires PlainHost(h)
    ensures PlainHost("." + h)
  {
    assert AllHost(".") && Lower(".") == ".";
    AllHostConcat(".", h);
    LowerConcat(".", h);
  }

  /** The apex of a suffix is what follows its leading dots. */
  lemma {:induction false} LeadingDots(s: Text, i: nat)
    requires i <= |s|
    ensures var k := SkipByte(s, '.', i); Dots(s[i..k]) && (k < |s| ==> Code(s[k]) != 46)
    decreases |s| - i
  {
    if i < |s| && s[i] == '.' {
      LeadingDots(s, i + 1);
      assert s[i..SkipByte(s, '.', i)] == [s[i]] + s[i + 1..SkipByte(s, '.', i)];
    }
  }

  lemma ApexIs(s: Text) returns (dots: Text)
    ensures s == dots + Apex(s) && Dots(dots) && (Apex(s) == [] || Code(Apex(s)[0]) != 46)
  {
    dots := s[0..SkipByte(s, '.', 0)];
    LeadingDots(s, 0);
  }

  // ---- request hosts ----

  lemma FirstColon(h: Text, rest: Text)
    requires ':' !in h && (rest == [] || rest[0] == ':')
    ensures IndexOf(h + rest, ':', 0) == |h| && (h + rest)[..|h|] == h
  {
    var s := h + rest;
    forall i | 0 <= i < |h| ensures s[i] != ':' { assert s[i] == h[i] && h[i] in h; }
    assert rest != [] ==> s[|h|] == ':';
  }

  lemma NoColon(h: Text)
    requires AllHost(h)
    ensures ':' !in h
  {
  }

  /** Nothing, or a colon and digits. */
  predicate PortPart(port: Text) {
    port == [] || (port[0] == ':' && Digits(port[1..]))
  }

  lemma PortIsBlack(port: Text)
    requires PortPart(port) && port != []
    ensures Black(port[|port| - 1])
  {
    assert |port| > 1 ==> port[|port| - 1] == port[1..][|port| - 2];
  }

  lemma PortEnds(h: Text, port: Text)
    requires h != [] && Black(h[0]) && Black(h[|h| - 1]) && PortPart(port)
    ensures !StartsWhite(h + port) && !EndsWhite(h + port) && (h + port)[0] == h[0]
  {
    var s := h + port;
    assert s[|s| - 1] == if port == [] then h[|h| - 1] else port[|port| - 1];
    if port != [] { PortIsBlack(port); }
    BlackEnds(s);
  }

  lemma PortComesOff(h: Text, port: Text)
    requires HostShaped(h) && PortPart(port)
    ensures WithoutPort(h + port) == h
  {
    NoColon(h);
    FirstColon(h, port);
    assert (h + port)[0] == h[0];
  }

  /** A port, and white space around, are not part of the host. */
  lemma HostOfRequest(h: Text, a: Text, written: Text, port: Text, b: Text)
    requires PlainHost(h) && SameLetters(h, written) && Blank(a) && Blank(b) && PortPart(port)
    ensures NormalizeRequestHost(a + (written + port) + b) == Some(h)
  {
    AsWritten(h, written);
    HostIsBlack(written, 0);
    HostIsBlack(written, |written| - 1);
    PortEnds(written, port);
    TrimOf(a, written + port, b);
    PortComesOff(written, port);
    NormalizeWritten(h, written);
  }

  /** So they make no difference to which route is matched, and letter case makes none. */
  lemma RequestWithPort(t: RouteTable, h: Text, a: Text, written: Text, port: Text, b: Text)
    requires PlainHost(h) && SameLetters(h, written) && Blank(a) && Blank(b) && PortPart(port)
    ensures MatchHost(t, a + (written + port) + b) == MatchHost(t, h) == MatchNormalized(t, h)
  {
    HostOfRequest(h, a, written, port, b);
    PlainRequest(h);
  }

  lemma BlankNothing()
    ensures Blank([])
  {
    assert AllWhite([]) && [] == Flat([]);
  }

  lemma FirstBracket(x: Text, rest: Text)
    requires ']' !in x
    ensures WithoutPort("[" + x + "]" + rest) == x
  {
    var s := "[" + x + "]" + rest;
    assert s[1..|x| + 1] == x && s[|x| + 1] == ']';
    forall i | 1 <= i < |x| + 1 ensures s[i] != ']' { assert s[i] == x[i - 1] && x[i - 1] in x; }
    assert IndexOf(s, ']', 1) == |x| + 1;
  }

  /** The inside of brackets is read, whatever follows them. */
  lemma RequestInBrackets(a: Text, x: Text, port: Text, b: Text)
    requires ']' !in x && Blank(a) && Blank(b) && PortPart(port)
    ensures NormalizeRequestHost(a + ("[" + x + "]" + port) + b) == Some(NormalizeHost(x))
  {
    var h := "[" + x + "]";
    PortEnds(h, port);
    TrimOf(a, h + port, b);
    FirstBracket(x, port);
  }

  /** Anything else, an opening bracket that is never closed included, is read up to its first colon. */
  lemma RequestUpToColon(a: Text, x: Text, rest: Text, b: Text)
    requires Blank(a) && Blank(b) && x + rest != [] && !StartsWhite(x + rest) && !EndsWhite(x + rest)
    requires ':' !in x && (rest == [] || rest[0] == ':') && ((x + rest)[0] == '[' ==> ']' !in x + rest)
    ensures NormalizeRequestHost(a + (x + rest) + b) == Some(NormalizeHost(x))
  {
    var s := x + rest;
    TrimOf(a, s, b);
    FirstColon(x, rest);
    if s[0] == '[' { assert IndexOf(s, ']', 1) == |s|; }
  }

  /** Nothing but white space is no request host. */
  lemma BlankRequest(s: Text)
    ensures NormalizeRequestHost(s).None? <==> Blank(s)
  {
    if Blank(s) { BlankIsTrimmed(s); }
    if Trim(s) == [] { TrimmedIsBlank(s); }
  }

  lemma BlankIsTrimmed(s: Text)
    requires Blank(s)
    ensures Trim(s) == []
  {
    TrimsLead(s, []);
    assert s + [] == s;
  }

  lemma TrimmedIsBlank(s: Text)
    requires Trim(s) == []
    ensures Blank(s)
  {
    var a, b := TrimIs(s);
    BlankConcat(a, b);
    assert a + [] + b == a + b;
  }

  lemma BlankConcat(a: Text, b: Text)
    requires Blank(a) && Blank(b)
    ensures Blank(a + b)
  {
    var ca :| AllWhite(ca) && a == Flat(ca);
    var cb :| AllWhite(cb) && b == Flat(cb);
    FlatConcat(ca, cb);
    assert AllWhite(ca + cb);
  }

  lemma {:induction false} FlatConcat(a: seq<Text>, b: seq<Text>)
    ensures Flat(a + b) == Flat(a) + Flat(b)
    decreases |a|
  {
    if a == [] {
      assert a + b == b;
    } else {
      FlatConcat(a[1..], b);
      assert (a + b)[1..] == a[1..] + b;
      ConcatAssoc(a[0], Flat(a[1..]), Flat(b));
    }
  }

  // ---- settings ----

  /** `direct`, in any letter case and with white space around it, stands for no proxy, and nothing else does:
      any other value has to be an address. */
  lemma DirectIsAccepted(a: Text, word: Text, b: Text, acceptsUrl: Text -> bool)
    requires Blank(a) && Blank(b) && SameLetters("direct", word)
    ensures ProxyOk(a + word + b, acceptsUrl)
  {
    assert |word| == 6;
    forall i | 0 <= i < 6 ensures Black(word[i]) { assert SameLetter("direct"[i], word[i]); }
    BlackEnds(word);
    TrimOf(a, word, b);
    EqFoldIff(word, "direct");
  }

  lemma OthersAreAddresses(value: Text, acceptsUrl: Text -> bool)
    requires !SameLetters(Trim(value), "direct")
    ensures ProxyOk(value, acceptsUrl) <==> acceptsUrl(Trim(value))
  {
    EqFoldIff(Trim(value), "direct");
  }

  /** A status code is a number of three digits; a page needs one that is not above 599, not informational
      and not No Content, Reset Content or Not Modified. */
  lemma ErrorStatusIff(code: nat)
    ensures ErrorStatusOk(code) <==>
      100 <= code <= 999 && code <= 599 && !(100 <= code < 200) && code !in {204, 205, 304}
  {
  }
}
