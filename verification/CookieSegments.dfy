/** Which `Set-Cookie` segments name a domain, spelled out with white space and letters by their codes. */
module CookieSegments {
  import opened Text
  import opened Hosts
  import opened Letters
  import opened Spaces
  import opened Cookies

  /** The parts of a segment as it is written. */
  datatype Pieces = Pieces(
    before: Text,
    name: Text,
    gap: Text,
    lead: Text,
    dot: Text,
    host: Text,
    trail: Text,
    end: Text
  )

  function Written(p: Pieces): Text {
    p.before + p.name + p.gap + "=" + (p.lead + (p.dot + p.host + p.trail)) + p.end
  }

  /** The name `domain` in any case, with white space around it; a host, perhaps after a dot, with white space
      around it; and at the end perhaps a semicolon. */
  ghost predicate NamesDomain(p: Pieces) {
    && Blank(p.before) && SameLetters("domain", p.name) && Blank(p.gap) && Blank(p.lead) && Blank(p.trail)
    && (p.dot == "." || (p.dot == [] && p.host != [] && Code(p.host[0]) != 46))
    && !StartsWhite(p.dot + p.host) && !EndsWhite(p.dot + p.host)
    && (p.end == ";" || (p.end == [] && Value(p)[|Value(p)| - 1] != ';'))
  }

  function Value(p: Pieces): (v: Text)
    ensures p.dot == "." || p.host != [] ==> v != []
  {
    p.lead + (p.dot + p.host + p.trail)
  }

  // ---- white space holds nothing else ----

  lemma WhiteIsNotBlack(w: Text)
    requires White(w)
    ensures forall i :: 0 <= i < |w| ==> !Black(w[i])
  {
    var n: int :| IsWhite(w, n);
  }

  lemma {:induction false} FlatIsNotBlack(chars: seq<Text>)
    requires AllWhite(chars)
    ensures forall i :: 0 <= i < |Flat(chars)| ==> !Black(Flat(chars)[i])
    decreases |chars|
  {
    if chars != [] {
      WhiteIsNotBlack(chars[0]);
      FlatIsNotBlack(chars[1..]);
    }
  }

  lemma BlankIsNotBlack(s: Text)
    requires Blank(s)
    ensures '=' !in s
  {
    var chars :| AllWhite(chars) && s == Flat(chars);
    FlatIsNotBlack(chars);
    assert Black('=');
  }

  // ---- such a segment is recognised ----

  lemma ValueIsCut(lead: Text, core: Text, trail: Text)
    requires Blank(lead) && Blank(trail) && core != [] && !StartsWhite(core) && !EndsWhite(core)
    ensures ValueParts(lead, core, trail)
  {
    StartsWhiteIff(core);
    EndsWhiteIff(core);
    BlackBeforeWhite(core, trail);
    SkipsLead(lead, core + trail);
    SkipsTrail(core, trail);
  }

  lemma SkipsLead(a: Text, rest: Text)
    requires Blank(a) && SpaceAt(rest, 0) == 0
    ensures SkipSpace(a + rest, 0) == |a|
  {
    var chars :| AllWhite(chars) && a == Flat(chars);
    SkipsAll(chars, rest);
  }

  lemma SkipsTrail(core: Text, b: Text)
    requires Blank(b) && SpaceBefore(core, |core|) == 0
    ensures SkipSpaceBack(core + b, |core + b|) == |core|
  {
    var chars :| AllWhite(chars) && b == Flat(chars);
    SkipsAllBack(core, chars);
  }

  lemma DomainLetters(name: Text)
    requires SameLetters("domain", name)
    ensures '=' !in name && !StartsWhite(name) && !EndsWhite(name) && EqFold(name, "domain")
  {
    assert |name| == 6;
    forall i | 0 <= i < 6 ensures Black(name[i]) && name[i] != '=' { assert SameLetter("domain"[i], name[i]); }
    BlackEnds(name);
    EqFoldIff(name, "domain");
  }

  lemma NameIsRead(before: Text, name: Text, gap: Text)
    requires Blank(before) && SameLetters("domain", name) && Blank(gap)
    ensures '=' !in before + name + gap && EqFold(Trim(before + name + gap), "domain")
  {
    DomainLetters(name);
    BlankIsNotBlack(before);
    BlankIsNotBlack(gap);
    TrimOf(before, name, gap);
  }

  lemma Recognised(p: Pieces)
    requires NamesDomain(p)
    ensures ParseDomain(Written(p))
         == Some(DomainAttribute(p.before + p.name + p.gap + "=" + p.lead, p.dot, p.host, p.trail + p.end))
  {
    var name, core := p.before + p.name + p.gap, p.dot + p.host;
    NameIsRead(p.before, p.name, p.gap);
    assert Written(p) == Join(name, Value(p), p.end);
    ParseOfSegmentParts(name, Value(p), p.end);
    ValueIsCut(p.lead, core, p.trail);
    ParseOfParts(p.lead, core, p.trail);
    assert p.dot == "." ==> core[1..] == p.host;
    assert p.dot == [] ==> core == p.host;
  }

  lemma BuildIsWritten(p: Pieces)
    ensures Build(DomainAttribute(p.before + p.name + p.gap + "=" + p.lead, p.dot, p.host, p.trail + p.end))
         == Written(p)
  {
  }

  /** A segment that names the source, up to letter case, is rewritten to the same with the target. */
  lemma NamedIsRewritten(p: Pieces, from: Text, to: Text)
    requires NamesDomain(p) && SameLetters(p.host, from)
    ensures RewriteSegment(Written(p), from, to) == Written(p.(host := to))
  {
    Recognised(p);
    EqFoldIff(p.host, from);
    BuildIsWritten(p.(host := to));
  }

  // ---- and no other ----

  lemma ValueFromText(value: Text) returns (lead: Text, core: Text, trail: Text)
    ensures value == lead + (core + trail) && core == Trim(value)
    ensures Blank(lead) && Blank(trail) && !StartsWhite(core) && !EndsWhite(core)
  {
    lead := TrimStartIs(value);
    trail := TrimEndIs(TrimStart(value));
    core := Trim(value);
    PrefixSpaceAt(core, trail);
    StartsWhiteIff(core);
    EndsWhiteIff(core);
  }

  lemma NameFromText(text: Text) returns (before: Text, name: Text, gap: Text)
    requires EqFold(Trim(text), "domain")
    ensures text == before + name + gap && Blank(before) && SameLetters("domain", name) && Blank(gap)
  {
    before, gap := TrimIs(text);
    name := Trim(text);
    EqFoldIff("domain", name);
  }

  /** Every segment that changes is such a segment, and changes only in its host. */
  lemma ChangedIsNamed(segment: Text, from: Text, to: Text) returns (p: Pieces)
    requires RewriteSegment(segment, from, to) != segment
    ensures NamesDomain(p) && segment == Written(p) && SameLetters(p.host, from)
    ensures RewriteSegment(segment, from, to) == Written(p.(host := to))
  {
    p := PiecesOf(segment);
    Recognised(p);
    EqFoldIff(p.host, from);
    NamedIsRewritten(p, from, to);
  }

  lemma DottedCore(core: Text) returns (dot: Text, host: Text)
    requires core != []
    ensures core == dot + host && (dot == "." || (dot == [] && host != [] && Code(host[0]) != 46))
  {
    dot := if core[0] == '.' then "." else [];
    host := if core[0] == '.' then core[1..] else core;
  }

  lemma Assemble(p: Pieces, text: Text, value: Text)
    requires text == p.before + p.name + p.gap && value == p.lead + ((p.dot + p.host) + p.trail)
    ensures Value(p) == value && Written(p) == Join(text, value, p.end)
  {
  }

  lemma PiecesOf(segment: Text) returns (p: Pieces)
    requires ParseDomain(segment).Some?
    ensures NamesDomain(p) && segment == Written(p)
  {
    var text, value, end := CutSegment(segment);
    ParseOfSegmentParts(text, value, end);
    var before, name, gap := NameFromText(text);
    p := PiecesOfValue(before, name, gap, value, end);
    Assemble(p, text, value);
  }

  lemma PiecesOfValue(before: Text, name: Text, gap: Text, value: Text, end: Text) returns (p: Pieces)
    requires Blank(before) && SameLetters("domain", name) && Blank(gap) && ParseValue(value).Some?
    requires end == ";" || (end == [] && (value == [] || value[|value| - 1] != ';'))
    ensures NamesDomain(p) && p.before == before && p.name == name && p.gap == gap && p.end == end
    ensures value == p.lead + ((p.dot + p.host) + p.trail)
  {
    var lead, core, trail := ValueFromText(value);
    CoreIsThere(value);
    var dot, host := DottedCore(core);
    p := Pieces(before, name, gap, lead, dot, host, trail, end);
    Assemble(p, before + name + gap, value);
  }

  lemma CoreIsThere(value: Text)
    requires ParseValue(value).Some?
    ensures Trim(value) != []
  {
  }
}
