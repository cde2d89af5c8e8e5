/** `Set-Cookie` rewriting: the value of `Domain` attributes (sections 5.2 and 5.2.3 of RFC 6265). */
module Cookies {
  import opened Text
  import opened Hosts
  import opened RoundTrip
  import opened Spaces

  // ---- one segment ----

  /** A segment that carries a domain, cut into what stays and the host that may be replaced. */
  datatype DomainAttribute = DomainAttribute(head: Text, dot: Text, host: Text, tail: Text)

  function Attribute(segment: Text): Text {
    if segment != [] && segment[|segment| - 1] == ';' then segment[..|segment| - 1] else segment
  }

  function Delimiter(segment: Text): Text {
    segment[|Attribute(segment)|..]
  }

  /** The dot-tolerant value of an attribute from its value on: leading space, dot, host, trailing space. */
  function ParseValue(value: Text): Option<DomainAttribute> {
    var trimmed := Trim(value);
    var start := SkipSpace(value, 0);
    if trimmed == [] then None
    else
      var end := start + |trimmed|;
      if trimmed[0] == '.' then Some(DomainAttribute(value[..start], ".", trimmed[1..], value[end..]))
      else Some(DomainAttribute(value[..start], [], trimmed, value[end..]))
  }

  function ParseDomain(segment: Text): Option<DomainAttribute> {
    var attribute := Attribute(segment);
    var equals := IndexOf(attribute, '=', 0);
    if equals == |attribute| || !EqFold(Trim(attribute[..equals]), "domain") then None
    else match ParseValue(attribute[equals + 1..])
      case None => None
      case Some(d) => Some(d.(head := attribute[..equals + 1] + d.head, tail := d.tail + Delimiter(segment)))
  }

  function Build(d: DomainAttribute): Text {
    d.head + d.dot + d.host + d.tail
  }

  /** `rewrite_cookie_segment` */
  function RewriteSegment(segment: Text, from: Text, to: Text): Text {
    match ParseDomain(segment)
    case Some(d) => if EqFold(d.host, from) then Build(d.(host := to)) else segment
    case None => segment
  }

  // ---- cutting by parts ----

  /** A value in three parts: white space, what is left when it is trimmed, white space. */
  ghost predicate ValueParts(lead: Text, core: Text, trail: Text) {
    && SkipSpace(lead + (core + trail), 0) == |lead|
    && SkipSpaceBack(core + trail, |core + trail|) == |core|
  }

  lemma TrimOfParts(lead: Text, core: Text, trail: Text)
    requires ValueParts(lead, core, trail)
    ensures Trim(lead + (core + trail)) == core
  {
    assert (lead + (core + trail))[|lead|..] == core + trail;
    assert (core + trail)[..|core|] == core;
  }

  lemma CutIntoParts(value: Text) returns (lead: Text, core: Text, trail: Text)
    ensures value == lead + (core + trail) && ValueParts(lead, core, trail)
  {
    var a := SkipSpace(value, 0);
    var rest := value[a..];
    var b := SkipSpaceBack(rest, |rest|);
    lead, core, trail := value[..a], rest[..b], rest[b..];
    assert core + trail == rest;
    assert lead + rest == value;
  }

  lemma ParseOfParts(lead: Text, core: Text, trail: Text)
    requires ValueParts(lead, core, trail)
    ensures ParseValue(lead + (core + trail)) ==
      if core == [] then None
      else if core[0] == '.' then Some(DomainAttribute(lead, ".", core[1..], trail))
      else Some(DomainAttribute(lead, [], core, trail))
  {
    var value := lead + (core + trail);
    TrimOfParts(lead, core, trail);
    assert value[..|lead|] == lead;
    assert value[|lead| + |core|..] == trail;
  }

  /** What is cut off is white space. */
  lemma PartsAreBlank(lead: Text, core: Text, trail: Text) returns (before: seq<Text>, after: seq<Text>)
    requires ValueParts(lead, core, trail)
    ensures AllWhite(before) && lead == Flat(before) && AllWhite(after) && trail == Flat(after)
  {
    var s, rest := lead + (core + trail), core + trail;
    before := SkippedIsWhite(s);
    after := SkippedBackIsWhite(rest);
    assert s[..|lead|] == lead && rest[|core|..] == trail;
  }

  /** New text between the same white space is cut out again, if it starts and ends with a host byte. */
  lemma ReplaceCore(lead: Text, core: Text, trail: Text, core': Text)
    requires ValueParts(lead, core, trail)
    requires core' != [] && IsHostByte(core'[0]) && IsHostByte(core'[|core'| - 1])
    ensures ValueParts(lead, core', trail)
  {
    var before, after := PartsAreBlank(lead, core, trail);
    assert (core' + trail)[0] == core'[0];
    NoSpaceAtHostByte(core' + trail, 0);
    NoSpaceAtHostByte(core', |core'| - 1);
    SkipsAll(before, core' + trail);
    SkipsAllBack(core', after);
  }

  lemma ParseValueBuilds(value: Text)
    requires ParseValue(value).Some?
    ensures Build(ParseValue(value).value) == value
  {
    var lead, core, trail := CutIntoParts(value);
    ParseOfParts(lead, core, trail);
    if core[0] == '.' { BuildDotted(lead, core[1..], trail); assert core == "." + core[1..]; }
    else { BuildPlain(lead, core, trail); }
  }

  lemma BuildDotted(lead: Text, host: Text, trail: Text)
    ensures Build(DomainAttribute(lead, ".", host, trail)) == lead + ("." + host + trail)
  {
  }

  lemma BuildPlain(lead: Text, host: Text, trail: Text)
    ensures Build(DomainAttribute(lead, [], host, trail)) == lead + (host + trail)
  {
  }

  /** A host that may replace another: host bytes, no leading dot. */
  predicate Replacement(h: Text) {
    HostShaped(h) && h[0] != '.'
  }

  /** A value with its host replaced is cut in the same places. */
  lemma ReplaceValue(value: Text, h: Text)
    requires ParseValue(value).Some? && Replacement(h)
    ensures ParseValue(Build(ParseValue(value).value.(host := h))) == Some(ParseValue(value).value.(host := h))
  {
    var lead, core, trail := CutIntoParts(value);
    ParseOfParts(lead, core, trail);
    if core[0] == '.' {
      assert ("." + h)[1..] == h && ("." + h)[|h|] == h[|h| - 1];
      ReplaceCore(lead, core, trail, "." + h);
      ParseOfParts(lead, "." + h, trail);
      BuildDotted(lead, h, trail);
    } else {
      ReplaceCore(lead, core, trail, h);
      ParseOfParts(lead, h, trail);
      BuildPlain(lead, h, trail);
    }
  }

  /** name=value with the delimiter that ends the segment. */
  ghost predicate SegmentParts(name: Text, value: Text, delimiter: Text) {
    '=' !in name && (delimiter == ";" || (delimiter == [] && (value == [] || value[|value| - 1] != ';')))
  }

  function Join(name: Text, value: Text, delimiter: Text): Text {
    name + "=" + value + delimiter
  }

  lemma AttributeOfParts(name: Text, value: Text, delimiter: Text)
    requires SegmentParts(name, value, delimiter)
    ensures Attribute(Join(name, value, delimiter)) == name + "=" + value
    ensures Delimiter(Join(name, value, delimiter)) == delimiter
  {
    DelimiterOfParts(name + "=" + value, delimiter);
    assert value != [] ==> (name + "=" + value)[|name| + |value|] == value[|value| - 1];
  }

  lemma DelimiterOfParts(a: Text, delimiter: Text)
    requires a != [] && (delimiter == ";" || (delimiter == [] && a[|a| - 1] != ';'))
    ensures Attribute(a + delimiter) == a && Delimiter(a + delimiter) == delimiter
  {
    var s := a + delimiter;
    assert delimiter == [] ==> s == a;
    assert s[..|a|] == a && s[|a|..] == delimiter;
  }

  lemma EqualsOfParts(name: Text, value: Text)
    requires '=' !in name
    ensures var a := name + "=" + value;
      IndexOf(a, '=', 0) == |name| && a[..|name|] == name && a[|name| + 1..] == value && a[..|name| + 1] == name + "="
  {
    var a := name + "=" + value;
    assert a[|name|] == '=';
    forall i | 0 <= i < |name| ensures a[i] != '=' { assert a[i] == name[i] && name[i] in name; }
  }

  lemma ParseOfSegmentParts(name: Text, value: Text, delimiter: Text)
    requires SegmentParts(name, value, delimiter)
    ensures ParseDomain(Join(name, value, delimiter)) ==
      if EqFold(Trim(name), "domain") && ParseValue(value).Some? then
        var d := ParseValue(value).value;
        Some(d.(head := name + "=" + d.head, tail := d.tail + delimiter))
      else None
  {
    AttributeOfParts(name, value, delimiter);
    EqualsOfParts(name, value);
    assert |name + "=" + value| > |name|;
  }

  lemma CutAtEquals(a: Text, k: nat)
    requires k < |a| && a[k] == '=' && forall j :: 0 <= j < k ==> a[j] != '='
    ensures '=' !in a[..k] && a == a[..k] + "=" + a[k + 1..]
  {
  }

  lemma CutDelimiter(segment: Text)
    ensures segment == Attribute(segment) + Delimiter(segment)
    ensures Delimiter(segment) == ";"
         || (Delimiter(segment) == [] && (segment == [] || segment[|segment| - 1] != ';'))
  {
  }

  lemma CutSegment(segment: Text) returns (name: Text, value: Text, delimiter: Text)
    requires ParseDomain(segment).Some?
    ensures SegmentParts(name, value, delimiter) && segment == Join(name, value, delimiter)
  {
    var a := Attribute(segment);
    var k := IndexOf(a, '=', 0);
    CutDelimiter(segment);
    CutAtEquals(a, k);
    name, value, delimiter := a[..k], a[k + 1..], Delimiter(segment);
    if delimiter == [] && value != [] { LastOfConcat(name + "=", value); }
  }

  lemma LastOfConcat(a: Text, b: Text)
    requires b != []
    ensures (a + b)[|a + b| - 1] == b[|b| - 1]
  {
  }

  lemma BuildInside(name: Text, d: DomainAttribute, delimiter: Text)
    ensures Build(d.(head := name + "=" + d.head, tail := d.tail + delimiter)) == Join(name, Build(d), delimiter)
  {
  }

  /** A segment is what it was cut into. */
  lemma ParseDomainBuilds(segment: Text)
    requires ParseDomain(segment).Some?
    ensures Build(ParseDomain(segment).value) == segment
  {
    var name, value, delimiter := CutSegment(segment);
    ParseOfSegmentParts(name, value, delimiter);
    ParseValueBuilds(value);
    BuildInside(name, ParseValue(value).value, delimiter);
  }

  /** Replacing the host of a segment leaves a segment that is cut in the same places. */
  lemma ReplaceHost(segment: Text, h: Text)
    requires ParseDomain(segment).Some? && Replacement(h)
    ensures ParseDomain(Build(ParseDomain(segment).value.(host := h))) == Some(ParseDomain(segment).value.(host := h))
  {
    var name, value, delimiter := CutSegment(segment);
    ParseOfSegmentParts(name, value, delimiter);
    var d := ParseValue(value).value;
    var d' := d.(host := h);
    ReplaceValue(value, h);
    ParseValueBuilds(value);
    LastOfReplaced(d, h);
    BuildInside(name, d', delimiter);
    ParseOfSegmentParts(name, Build(d'), delimiter);
  }

  /** With a new host the value does not end in `;` unless it did before. */
  lemma LastOfReplaced(d: DomainAttribute, h: Text)
    requires Replacement(h)
    ensures var v, v' := Build(d), Build(d.(host := h));
      v' != [] && (v == [] || v[|v| - 1] != ';' ==> v'[|v'| - 1] != ';')
  {
    var v, v' := Build(d), Build(d.(host := h));
    assert IsHostByte(h[|h| - 1]);
    if d.tail == [] {
      assert v'[|v'| - 1] == h[|h| - 1];
    } else {
      assert v'[|v'| - 1] == d.tail[|d.tail| - 1] == v[|v| - 1];
    }
  }

  // ---- laws of one segment ----

  /** The segment names the host, up to case and one leading dot. */
  predicate Names(segment: Text, host: Text) {
    ParseDomain(segment).Some? && EqFold(ParseDomain(segment).value.host, host)
  }

  /** Only a segment that names the source changes, and only in its host. */
  lemma OnlyNamedHostChanges(segment: Text, from: Text, to: Text)
    ensures !Names(segment, from) ==> RewriteSegment(segment, from, to) == segment
    ensures Names(segment, from) ==> var d := ParseDomain(segment).value;
      segment == Build(d) && RewriteSegment(segment, from, to) == Build(d.(host := to))
  {
    if Names(segment, from) { ParseDomainBuilds(segment); }
  }

  lemma RewrittenNames(segment: Text, from: Text, to: Text)
    requires Names(segment, from) && Replacement(to)
    ensures ParseDomain(RewriteSegment(segment, from, to)) == Some(ParseDomain(segment).value.(host := to))
  {
    ReplaceHost(segment, to);
  }

  lemma SegmentIdempotent(segment: Text, from: Text, to: Text)
    requires Replacement(to)
    ensures RewriteSegment(RewriteSegment(segment, from, to), from, to) == RewriteSegment(segment, from, to)
  {
    if Names(segment, from) { RewrittenNames(segment, from, to); }
  }

  lemma EqFoldHost(d: DomainAttribute, h: Text)
    ensures EqFold(Build(d.(host := h)), Build(d)) <==> EqFold(h, d.host)
  {
    var p := d.head + d.dot;
    if |h| == |d.host| {
      EqFoldSplit(p + h, d.tail, p + d.host, d.tail);
      EqFoldSplit(p, h, p, d.host);
    } else {
      assert |Lower(Build(d.(host := h)))| != |Lower(Build(d))|;
      assert |Lower(h)| != |Lower(d.host)|;
    }
  }

  /** The swapped rewrite undoes the first one on a segment, up to case, unless the segment names the
      target without naming the source. */
  lemma SegmentRoundTrip(segment: Text, from: Text, to: Text)
    requires Replacement(to)
    ensures EqFold(RewriteSegment(RewriteSegment(segment, from, to), to, from), segment)
      <==> (Names(segment, to) ==> Names(segment, from))
  {
    if Names(segment, from) {
      RewrittenNames(segment, from, to);
      ParseDomainBuilds(segment);
      EqFoldHost(ParseDomain(segment).value, from);
    } else if Names(segment, to) {
      ParseDomainBuilds(segment);
      EqFoldHost(ParseDomain(segment).value, from);
    }
  }

  // ---- whole cookies ----

  /** Length of the first `;`-inclusive segment. */
  function SegmentEnd(s: Text): (n: nat)
    requires s != []
    ensures 0 < n <= |s|
  {
    var k := IndexOf(s, ';', 0);
    if k < |s| then k + 1 else k
  }

  /** `split_inclusive(';')` */
  function Segments(s: Text): seq<Text>
    decreases |s|
  {
    if s == [] then [] else [s[..SegmentEnd(s)]] + Segments(s[SegmentEnd(s)..])
  }

  function RewriteSegments(s: Text, from: Text, to: Text): Text
    decreases |s|
  {
    if s == [] then []
    else RewriteSegment(s[..SegmentEnd(s)], from, to) + RewriteSegments(s[SegmentEnd(s)..], from, to)
  }

  function RewriteEach(segments: seq<Text>, from: Text, to: Text): seq<Text> {
    if segments == [] then [] else [RewriteSegment(segments[0], from, to)] + RewriteEach(segments[1..], from, to)
  }

  function Concat(segments: seq<Text>): Text {
    if segments == [] then [] else segments[0] + Concat(segments[1..])
  }

  lemma {:induction false} RewriteIsSegmentwise(s: Text, from: Text, to: Text)
    ensures RewriteSegments(s, from, to) == Concat(RewriteEach(Segments(s), from, to))
    decreases |s|
  {
    if s != [] {
      var segments := Segments(s);
      RewriteIsSegmentwise(s[SegmentEnd(s)..], from, to);
      assert segments[1..] == Segments(s[SegmentEnd(s)..]);
      var each := RewriteEach(segments, from, to);
      assert each[1..] == RewriteEach(segments[1..], from, to);
    }
  }

  /** `rewrite_cookie_domain` */
  method RewriteCookieDomain(input: Text, fromDomain: Text, toDomain: Text) returns (rewritten: Text)
    ensures rewritten == RewriteSegments(input, NormalizeHost(fromDomain), NormalizeHost(toDomain))
  {
    var from, to := NormalizeHost(fromDomain), NormalizeHost(toDomain);
    rewritten := [];
    var segments := Segments(input);
    ghost var whole := RewriteSegments(input, from, to);
    RewriteIsSegmentwise(input, from, to);
    while segments != []
      invariant rewritten + Concat(RewriteEach(segments, from, to)) == whole
      decreases |segments|
    {
      var first, others := RewriteSegment(segments[0], from, to), RewriteEach(segments[1..], from, to);
      assert ([first] + others)[1..] == others;
      ConcatAssoc(rewritten, first, Concat(others));
      rewritten := rewritten + first;
      segments := segments[1..];
    }
    assert rewritten + [] == rewritten;
  }

  /** seg is the first segment of seg + rest. */
  ghost predicate IsSegment(seg: Text, rest: Text) {
    && seg != [] && (forall i :: 0 <= i < |seg| - 1 ==> seg[i] != ';')
    && (rest != [] ==> seg[|seg| - 1] == ';')
  }

  lemma FirstSegment(s: Text) returns (seg: Text, rest: Text)
    requires s != []
    ensures s == seg + rest && IsSegment(seg, rest) && seg == s[..SegmentEnd(s)] && rest == s[SegmentEnd(s)..]
  {
    seg, rest := s[..SegmentEnd(s)], s[SegmentEnd(s)..];
  }

  lemma SegmentEndIs(seg: Text, rest: Text)
    requires IsSegment(seg, rest)
    ensures SegmentEnd(seg + rest) == |seg| && (seg + rest)[..|seg|] == seg && (seg + rest)[|seg|..] == rest
  {
    var s := seg + rest;
    assert forall i :: 0 <= i < |seg| ==> s[i] == seg[i];
  }

  /** The `;`-inclusive segments concatenate back to the input, and only their last byte is a `;`. */
  lemma {:induction false} SegmentsJoin(s: Text)
    ensures Concat(Segments(s)) == s
    ensures forall i :: 0 <= i < |Segments(s)| ==> ProperSegment(Segments(s)[i])
    ensures forall i :: 0 <= i < |Segments(s)| - 1 ==> Terminated(Segments(s)[i])
    decreases |s|
  {
    if s != [] {
      var seg, rest := FirstSegment(s);
      SegmentsJoin(rest);
      assert ([seg] + Segments(rest))[1..] == Segments(rest);
    }
  }

  /** Ends in its semicolon. */
  predicate Terminated(seg: Text) {
    seg != [] && seg[|seg| - 1] == ';'
  }

  predicate ProperSegment(seg: Text) {
    seg != [] && forall i :: 0 <= i < |seg| - 1 ==> seg[i] != ';'
  }

  lemma RewriteFirstSegment(seg: Text, rest: Text, from: Text, to: Text)
    requires IsSegment(seg, rest)
    ensures RewriteSegments(seg + rest, from, to) == RewriteSegment(seg, from, to) + RewriteSegments(rest, from, to)
  {
    SegmentEndIs(seg, rest);
  }

  /** A rewritten segment is still one segment. */
  lemma RewrittenIsSegment(seg: Text, rest: Text, from: Text, to: Text)
    requires IsSegment(seg, rest) && Replacement(to)
    ensures IsSegment(RewriteSegment(seg, from, to), RewriteSegments(rest, from, to))
  {
    if Names(seg, from) {
      var name, value, delimiter := CutSegment(seg);
      ParseOfSegmentParts(name, value, delimiter);
      var d := ParseValue(value).value;
      ParseValueBuilds(value);
      BuildInside(name, d.(host := to), delimiter);
      PartsWithoutSemicolon(name, value, delimiter, d, to);
      SegmentOfParts(name, Build(d.(host := to)), delimiter);
      assert rest != [] ==> seg[|seg| - 1] == ';';
      LastOfParts(name, value, delimiter);
    }
  }

  lemma PartsWithoutSemicolon(name: Text, value: Text, delimiter: Text, d: DomainAttribute, to: Text)
    requires SegmentParts(name, value, delimiter) && value == Build(d) && AllHost(to)
    requires ProperSegment(Join(name, value, delimiter))
    ensures ';' !in name && ';' !in Build(d.(host := to))
  {
    var s := Join(name, value, delimiter);
    assert ';' !in name + "=" + value by {
      forall i | 0 <= i < |name + "=" + value| ensures (name + "=" + value)[i] != ';' {
        assert s[i] == (name + "=" + value)[i];
      }
    }
    assert ';' !in value && ';' !in name;
    assert ';' !in d.head && ';' !in d.dot && ';' !in d.tail;
    assert ';' !in to by { assert forall i :: 0 <= i < |to| ==> IsHostByte(to[i]); }
  }

  lemma SegmentOfParts(name: Text, value: Text, delimiter: Text)
    requires ';' !in name && ';' !in value && (delimiter == ";" || delimiter == [])
    ensures ProperSegment(Join(name, value, delimiter))
    ensures delimiter == ";" ==> Join(name, value, delimiter)[|Join(name, value, delimiter)| - 1] == ';'
  {
    var a := name + "=" + value;
    assert ';' !in a;
    assert forall i :: 0 <= i < |a| ==> Join(name, value, delimiter)[i] == a[i] && a[i] in a;
  }

  lemma LastOfParts(name: Text, value: Text, delimiter: Text)
    requires SegmentParts(name, value, delimiter)
    ensures var s := Join(name, value, delimiter); s[|s| - 1] == ';' ==> delimiter == ";"
  {
    var s := Join(name, value, delimiter);
    if delimiter == [] {
      assert s == name + "=" + value;
      assert value != [] ==> s[|s| - 1] == value[|value| - 1];
    }
  }

  /** Rewriting a cookie twice is rewriting it once. */
  lemma {:induction false} CookieIdempotent(s: Text, from: Text, to: Text)
    requires Replacement(to)
    ensures RewriteSegments(RewriteSegments(s, from, to), from, to) == RewriteSegments(s, from, to)
    decreases |s|
  {
    if s != [] {
      var seg, rest := FirstSegment(s);
      CookieIdempotent(rest, from, to);
      RewriteFirstSegment(seg, rest, from, to);
      RewrittenIsSegment(seg, rest, from, to);
      RewriteFirstSegment(RewriteSegment(seg, from, to), RewriteSegments(rest, from, to), from, to);
      SegmentIdempotent(seg, from, to);
    }
  }

  /** No segment names the target without naming the source. */
  predicate Undoable(s: Text, from: Text, to: Text)
    decreases |s|
  {
    s == [] || (var seg := s[..SegmentEnd(s)];
      (Names(seg, to) ==> Names(seg, from)) && Undoable(s[SegmentEnd(s)..], from, to))
  }

  function Undone(s: Text, from: Text, to: Text): Text {
    RewriteSegments(RewriteSegments(s, from, to), to, from)
  }

  function UndoneSegment(seg: Text, from: Text, to: Text): Text {
    RewriteSegment(RewriteSegment(seg, from, to), to, from)
  }

  lemma UndoneFirstSegment(seg: Text, rest: Text, from: Text, to: Text)
    requires IsSegment(seg, rest) && Replacement(to)
    ensures Undone(seg + rest, from, to) == UndoneSegment(seg, from, to) + Undone(rest, from, to)
  {
    RewriteFirstSegment(seg, rest, from, to);
    RewrittenIsSegment(seg, rest, from, to);
    RewriteFirstSegment(RewriteSegment(seg, from, to), RewriteSegments(rest, from, to), to, from);
  }

  lemma EqFoldLength(a: Text, b: Text)
    requires EqFold(a, b)
    ensures |a| == |b|
  {
    assert |Lower(a)| == |Lower(b)|;
  }

  lemma UndoneSegmentLength(seg: Text, from: Text, to: Text)
    requires Replacement(to)
    ensures |UndoneSegment(seg, from, to)|
         == |seg| + if Names(seg, to) && !Names(seg, from) then |from| - |to| else 0
  {
    if Names(seg, from) || !Names(seg, to) {
      SegmentRoundTrip(seg, from, to);
      EqFoldLength(UndoneSegment(seg, from, to), seg);
    } else {
      ParseDomainBuilds(seg);
      EqFoldLength(ParseDomain(seg).value.host, to);
    }
  }

  /** All segments that are not restored change length in the same direction. */
  lemma {:induction false} UndoneLength(s: Text, from: Text, to: Text)
    requires Replacement(to)
    ensures |from| >= |to| ==> |Undone(s, from, to)| >= |s|
    ensures |from| <= |to| ==> |Undone(s, from, to)| <= |s|
    ensures |from| != |to| && !Undoable(s, from, to) ==> |Undone(s, from, to)| != |s|
    decreases |s|
  {
    if s != [] {
      var seg, rest := FirstSegment(s);
      UndoneLength(rest, from, to);
      UndoneFirstSegment(seg, rest, from, to);
      UndoneSegmentLength(seg, from, to);
    }
  }

  /** Rewriting a cookie and back restores it, up to ASCII case, exactly when no segment named the target
      without naming the source. */
  lemma {:induction false} CookieRoundTrip(s: Text, from: Text, to: Text)
    requires Replacement(to)
    ensures EqFold(Undone(s, from, to), s) <==> Undoable(s, from, to)
    decreases |s|
  {
    if s != [] {
      var seg, rest := FirstSegment(s);
      CookieRoundTrip(rest, from, to);
      UndoneFirstSegment(seg, rest, from, to);
      UndoneSegmentLength(seg, from, to);
      SegmentRoundTrip(seg, from, to);
      if |UndoneSegment(seg, from, to)| == |seg| {
        EqFoldSplit(UndoneSegment(seg, from, to), Undone(rest, from, to), seg, rest);
      } else {
        UndoneLength(s, from, to);
        assert |Lower(Undone(s, from, to))| != |Lower(s)|;
      }
    }
  }

  // ---- the domains that are rewritten ----

  /** Position after the last dot before j, or 0. */
  function AfterLastDot(s: Text, j: nat): (k: nat)
    requires j <= |s|
    ensures k <= j && (k > 0 ==> s[k - 1] == '.') && forall i :: k <= i < j ==> s[i] != '.'
  {
    if j == 0 || s[j - 1] == '.' then j else AfterLastDot(s, j - 1)
  }

  /** `registrable_suffix`: the last two labels of the host, or all of it if there are no two. */
  function RegistrableSuffix(host: Text): (r: Text)
    ensures host != [] && host[|host| - 1] != '.' ==> r != []
  {
    var tld := AfterLastDot(host, |host|);
    if tld == 0 then host else host[AfterLastDot(host, tld - 1)..]
  }

  /** It is the host itself or follows a dot in it, and has one dot if the host has any. */
  lemma RegistrableSuffixIs(host: Text)
    ensures var r := RegistrableSuffix(host); var k := |host| - |r|;
      && 0 <= k && r == host[k..] && (k > 0 ==> host[k - 1] == '.')
      && ('.' in host <==> '.' in r)
      && forall i, j :: 0 <= i < j < |r| ==> !(r[i] == '.' && r[j] == '.')
  {
    var tld := AfterLastDot(host, |host|);
    if tld > 0 { OneDotLeft(host, AfterLastDot(host, tld - 1), tld - 1); }
  }

  lemma OneDotLeft(host: Text, k: nat, dot: nat)
    requires k <= dot < |host| && host[dot] == '.' && forall i :: k <= i < |host| && i != dot ==> host[i] != '.'
    ensures '.' in host[k..]
    ensures forall i, j :: 0 <= i < j < |host[k..]| ==> !(host[k..][i] == '.' && host[k..][j] == '.')
  {
    var r := host[k..];
    assert r[dot - k] == '.';
    assert forall i :: 0 <= i < |r| ==> r[i] == host[k + i];
  }

  lemma SuffixOfPlain(host: Text, k: nat)
    requires PlainHost(host) && k < |host|
    ensures PlainHost(host[k..])
  {
    LowerSlice(host, k, |host|);
    assert host[k..|host|] == host[k..];
  }

  /** The registrable suffix of a plain host, when it has no leading dot, may replace a cookie domain. */
  lemma RegistrableSuffixReplaces(host: Text, r: Text)
    requires PlainHost(host) && r == RegistrableSuffix(host) && r != [] && r[0] != '.'
    ensures Replacement(r) && NormalizeHost(r) == r
  {
    RegistrableSuffixIs(host);
    SuffixOfPlain(host, |host| - |r|);
    PlainIsNormal(r);
  }
}
