/** Script injection: `<script>` tags just before the last `</head>`, or at the end. */
module Scripts {
  import opened Text
  import opened Utf8

  const HEAD_END: Text := "</head>"
  const TAG_OPEN: Text := "<script src=\""
  const TAG_CLOSE: Text := "\"></script>\n"

  predicate StartsWith(s: Text, prefix: Text) {
    |prefix| <= |s| && forall i :: 0 <= i < |prefix| ==> s[i] == prefix[i]
  }

  function IsRemoteUrl(script: Text): bool {
    StartsWith(script, "http://") || StartsWith(script, "https://")
  }

  // ---- escaping ----

  /** `str::replace` of one byte */
  function Replace(s: Text, c: byte, entity: Text): Text {
    if s == [] then [] else (if s[0] == c then entity else [s[0]]) + Replace(s[1..], c, entity)
  }

  /** `html_escape`: four replacements of the whole string, one after the other. */
  function HtmlEscape(s: Text): Text {
    Replace(Replace(Replace(Replace(s, '&', "&amp;"), '\"', "&quot;"), '<', "&lt;"), '>', "&gt;")
  }

  function EscapeByte(b: byte): Text {
    if b == '&' then "&amp;" else if b == '\"' then "&quot;"
    else if b == '<' then "&lt;" else if b == '>' then "&gt;" else [b]
  }

  /** The same in one pass. */
  function EscapeOnce(s: Text): Text {
    if s == [] then [] else EscapeByte(s[0]) + EscapeOnce(s[1..])
  }

  lemma {:induction false} ReplaceConcat(a: Text, b: Text, c: byte, entity: Text)
    ensures Replace(a + b, c, entity) == Replace(a, c, entity) + Replace(b, c, entity)
    decreases |a|
  {
    if a == [] {
      assert a + b == b;
    } else {
      ReplaceConcat(a[1..], b, c, entity);
      assert (a + b)[1..] == a[1..] + b;
      ConcatAssoc(if a[0] == c then entity else [a[0]], Replace(a[1..], c, entity), Replace(b, c, entity));
    }
  }

  lemma {:induction false} ReplaceAbsent(s: Text, c: byte, entity: Text)
    requires c !in s
    ensures Replace(s, c, entity) == s
    decreases |s|
  {
    if s != [] {
      assert s == [s[0]] + s[1..];
      ReplaceAbsent(s[1..], c, entity);
    }
  }

  lemma ReplaceByte(b: byte, c: byte, entity: Text)
    ensures Replace([b], c, entity) == if b == c then entity else [b]
  {
    assert [b][1..] == [];
    assert Replace([], c, entity) == [];
    assert entity + [] == entity;
  }

  lemma EscapeOfSpecial(b: byte, e: Text)
    requires (b == '&' && e == "&amp;") || (b == '\"' && e == "&quot;")
    requires '\"' !in e && '<' !in e && '>' !in e
    ensures HtmlEscape([b]) == e
  {
    ReplaceByte(b, '&', "&amp;");
    if b == '&' { ReplaceAbsent(e, '\"', "&quot;"); } else { ReplaceByte(b, '\"', "&quot;"); }
    ReplaceAbsent(e, '<', "&lt;");
    ReplaceAbsent(e, '>', "&gt;");
  }

  lemma EscapeOfOther(b: byte)
    requires b != '&' && b != '\"'
    ensures HtmlEscape([b]) == EscapeByte(b)
  {
    ReplaceByte(b, '&', "&amp;");
    ReplaceByte(b, '\"', "&quot;");
    ReplaceByte(b, '<', "&lt;");
    if b == '<' { ReplaceAbsent("&lt;", '>', "&gt;"); } else { ReplaceByte(b, '>', "&gt;"); }
  }

  lemma EscapeOfByte(b: byte)
    ensures HtmlEscape([b]) == EscapeByte(b)
  {
    if b == '&' || b == '\"' { EscapeOfSpecial(b, EscapeByte(b)); } else { EscapeOfOther(b); }
  }

  lemma EscapeConcat(a: Text, b: Text)
    ensures HtmlEscape(a + b) == HtmlEscape(a) + HtmlEscape(b)
  {
    var a1, b1 := Replace(a, '&', "&amp;"), Replace(b, '&', "&amp;");
    var a2, b2 := Replace(a1, '\"', "&quot;"), Replace(b1, '\"', "&quot;");
    var a3, b3 := Replace(a2, '<', "&lt;"), Replace(b2, '<', "&lt;");
    ReplaceConcat(a, b, '&', "&amp;");
    ReplaceConcat(a1, b1, '\"', "&quot;");
    ReplaceConcat(a2, b2, '<', "&lt;");
    ReplaceConcat(a3, b3, '>', "&gt;");
  }

  /** The four replacements do not interfere: together they escape byte by byte. */
  lemma {:induction false} EscapeFusion(s: Text)
    ensures HtmlEscape(s) == EscapeOnce(s)
    decreases |s|
  {
    if s != [] {
      assert s == [s[0]] + s[1..];
      EscapeConcat([s[0]], s[1..]);
      EscapeOfByte(s[0]);
      EscapeFusion(s[1..]);
    }
  }

  /** Reads the four entities back. */
  function Unescape(s: Text): Text
    decreases |s|
  {
    if s == [] then []
    else if StartsWith(s, "&amp;") then ['&'] + Unescape(s[5..])
    else if StartsWith(s, "&quot;") then ['\"'] + Unescape(s[6..])
    else if StartsWith(s, "&lt;") then ['<'] + Unescape(s[4..])
    else if StartsWith(s, "&gt;") then ['>'] + Unescape(s[4..])
    else [s[0]] + Unescape(s[1..])
  }

  lemma UnescapeEntity(s: Text, b: byte)
    requires EscapeByte(b) != [b] && StartsWith(s, EscapeByte(b))
    ensures Unescape(s) == [b] + Unescape(s[|EscapeByte(b)|..])
  {
    var e := EscapeByte(b);
    assert s[1] == e[1];
    if b == '<' || b == '>' { assert s[1] == e[1] && "&amp;"[1] == 'a' && "&quot;"[1] == 'q' && "&lt;"[1] == 'l'; }
    if b == '\"' { assert "&amp;"[1] == 'a'; }
  }

  lemma UnescapeByte(b: byte, rest: Text)
    ensures Unescape(EscapeByte(b) + rest) == [b] + Unescape(rest)
  {
    var e := EscapeByte(b);
    var s := e + rest;
    assert s[|e|..] == rest;
    if e == [b] {
      assert s[0] == b && b != '&';
      assert "&amp;"[0] == "&quot;"[0] == "&lt;"[0] == "&gt;"[0] == '&';
    } else {
      UnescapeEntity(s, b);
    }
  }

  lemma {:induction false} UnescapeInvertsEscape(s: Text)
    ensures Unescape(HtmlEscape(s)) == s
    decreases |s|
  {
    EscapeFusion(s);
    if s != [] {
      EscapeFusion(s[1..]);
      UnescapeByte(s[0], EscapeOnce(s[1..]));
      UnescapeInvertsEscape(s[1..]);
      assert s == [s[0]] + s[1..];
    }
  }

  /** No byte that could end the attribute or open a tag is left. */
  predicate Inert(s: Text) {
    forall i :: 0 <= i < |s| ==> s[i] != '<' && s[i] != '>' && s[i] != '\"'
  }

  lemma EscapeIsInert(s: Text)
    ensures Inert(HtmlEscape(s))
  {
    EscapeFusion(s);
    EscapeOnceIsInert(s);
  }

  lemma {:induction false} EscapeOnceIsInert(s: Text)
    ensures Inert(EscapeOnce(s))
    decreases |s|
  {
    if s != [] {
      EscapeOnceIsInert(s[1..]);
      InertConcat(EscapeByte(s[0]), EscapeOnce(s[1..]));
    }
  }

  lemma InertConcat(a: Text, b: Text)
    requires Inert(a) && Inert(b)
    ensures Inert(a + b)
  {
  }

  // ---- tags ----

  function ScriptSource(script: Text, prefix: Text): Text {
    if IsRemoteUrl(script) then script else TrimEndByte(prefix, '/') + "/" + script
  }

  function Tag(script: Text, prefix: Text): Text {
    TAG_OPEN + HtmlEscape(ScriptSource(script, prefix)) + TAG_CLOSE
  }

  function TagList(scripts: seq<Text>, prefix: Text): (list: seq<Text>)
    ensures |list| == |scripts| && forall i :: 0 <= i < |list| ==> list[i] == Tag(scripts[i], prefix)
  {
    seq(|scripts|, i requires 0 <= i < |scripts| => Tag(scripts[i], prefix))
  }

  function Joined(pieces: seq<Text>): Text
    decreases |pieces|
  {
    if pieces == [] then [] else Joined(pieces[..|pieces| - 1]) + pieces[|pieces| - 1]
  }

  /** The tags of all scripts, in order. */
  function Tags(scripts: seq<Text>, prefix: Text): Text {
    Joined(TagList(scripts, prefix))
  }

  lemma JoinedSnoc(pieces: seq<Text>, i: nat)
    requires i < |pieces|
    ensures Joined(pieces[..i + 1]) == Joined(pieces[..i]) + pieces[i]
  {
    assert pieces[..i + 1][..i] == pieces[..i];
  }

  /** `build_script_tags` */
  method BuildScriptTags(scripts: seq<Text>, prefix: Text) returns (tags: Text)
    ensures tags == Tags(scripts, prefix)
  {
    ghost var list := TagList(scripts, prefix);
    if scripts == [] { return []; }
    tags := [];
    var i := 0;
    while i < |scripts|
      invariant 0 <= i <= |scripts|
      invariant tags == Joined(list[..i])
    {
      JoinedSnoc(list, i);
      tags := tags + (TAG_OPEN + HtmlEscape(ScriptSource(scripts[i], prefix)) + TAG_CLOSE);
      i := i + 1;
    }
    assert list[..i] == list;
  }

  lemma {:induction false} JoinedConcat(a: seq<Text>, b: seq<Text>)
    ensures Joined(a + b) == Joined(a) + Joined(b)
    decreases |b|
  {
    if b == [] {
      assert a + b == a;
    } else {
      var n := |b| - 1;
      assert (a + b)[..|a| + n] == a + b[..n];
      JoinedConcat(a, b[..n]);
      ConcatAssoc(Joined(a), Joined(b[..n]), b[n]);
    }
  }

  lemma TagsConcat(a: seq<Text>, b: seq<Text>, prefix: Text)
    ensures Tags(a + b, prefix) == Tags(a, prefix) + Tags(b, prefix)
  {
    assert TagList(a + b, prefix) == TagList(a, prefix) + TagList(b, prefix);
    JoinedConcat(TagList(a, prefix), TagList(b, prefix));
  }

  // ---- where the tags go ----

  /** A case-insensitive `</head>` starts at i. */
  predicate HeadAt(s: Text, i: nat) {
    i + 7 <= |s| && s[i] == '<' && s[i + 1] == '/' && LowerByte(s[i + 2]) == 'h' && LowerByte(s[i + 3]) == 'e'
    && LowerByte(s[i + 4]) == 'a' && LowerByte(s[i + 5]) == 'd' && s[i + 6] == '>'
  }

  /** `str::rfind` of `</head>` below position n */
  function LastHeadBelow(s: Text, n: nat): (found: Option<nat>)
    ensures found.Some? ==> found.value < n && HeadAt(s, found.value)
    ensures found.Some? ==> forall k :: found.value < k < n ==> !HeadAt(s, k)
    ensures found.None? ==> forall k :: 0 <= k < n ==> !HeadAt(s, k)
  {
    if n == 0 then None else if HeadAt(s, n - 1) then Some(n - 1) else LastHeadBelow(s, n - 1)
  }

  /** `find_closing_head` */
  function FindClosingHead(html: Text): Option<nat> {
    LastHeadBelow(html, |html|)
  }

  lemma HeadAtIsLowerMatch(s: Text, i: nat)
    ensures HeadAt(s, i) <==> i + |HEAD_END| <= |Lower(s)| && Lower(s)[i..i + |HEAD_END|] == HEAD_END
  {
    if i + 7 <= |s| {
      var t := Lower(s)[i..i + 7];
      assert t[0] == LowerByte(s[i]) && t[1] == LowerByte(s[i + 1]) && t[2] == LowerByte(s[i + 2])
        && t[3] == LowerByte(s[i + 3]) && t[4] == LowerByte(s[i + 4]) && t[5] == LowerByte(s[i + 5])
        && t[6] == LowerByte(s[i + 6]);
    }
  }

  function InjectAt(html: Text): (at: nat)
    ensures at <= |html|
  {
    match FindClosingHead(html) case Some(p) => p case None => |html|
  }

  function Inject(html: Text, scripts: seq<Text>, prefix: Text): Text {
    if scripts == [] then html
    else
      html[..InjectAt(html)] + Tags(scripts, prefix) + html[InjectAt(html)..]
  }

  /** `inject_scripts` */
  method InjectScripts(html: Text, scripts: seq<Text>, prefix: Text) returns (result: Text)
    requires ValidUtf8(html)
    ensures result == Inject(html, scripts, prefix)
  {
    if scripts == [] { return html; }
    var tags := BuildScriptTags(scripts, prefix);
    var pos := FindClosingHead(html);
    if pos.Some? {
      result := Slice(html, 0, pos.value);
      result := result + tags;
      result := result + Slice(html, pos.value, |html|);
    } else {
      result := html;
      result := result + tags;
      assert html[..|html|] == html && html[|html|..] == [];
    }
  }

  /** A `<` at i starts `<s` or `</s`. */
  predicate ScriptTagAt(t: Text, i: nat)
    requires i < |t|
  {
    t[i] == '<' ==> i + 2 < |t| && (t[i + 1] == 's' || (t[i + 1] == '/' && t[i + 2] == 's'))
  }

  /** Text of script tags: it starts with `<`, and every `<` starts a script tag. */
  predicate ScriptTagsOnly(t: Text) {
    (t != [] ==> t[0] == '<') && forall i :: 0 <= i < |t| ==> ScriptTagAt(t, i)
  }

  lemma TagIsScriptTag(script: Text, prefix: Text)
    ensures ScriptTagsOnly(Tag(script, prefix))
  {
    var e := HtmlEscape(ScriptSource(script, prefix));
    EscapeIsInert(ScriptSource(script, prefix));
    TagAround(e);
  }

  lemma TagAround(e: Text)
    requires Inert(e)
    ensures ScriptTagsOnly(TAG_OPEN + e + TAG_CLOSE)
  {
    var t := TAG_OPEN + e + TAG_CLOSE;
    var m, n := |TAG_OPEN|, |TAG_OPEN| + |e|;
    assert forall i :: 0 <= i < m ==> t[i] == TAG_OPEN[i];
    assert forall i :: m <= i < n ==> t[i] == e[i - m];
    assert forall i :: n <= i < |t| ==> t[i] == TAG_CLOSE[i - n];
    forall i | 0 <= i < |t| ensures ScriptTagAt(t, i) {
      if t[i] == '<' {
        assert i == 0 || i == n + 2;
      }
    }
  }

  lemma ScriptTagsConcat(a: Text, b: Text)
    requires ScriptTagsOnly(a) && ScriptTagsOnly(b)
    ensures ScriptTagsOnly(a + b)
  {
    var t := a + b;
    forall i | 0 <= i < |t| ensures ScriptTagAt(t, i) {
      if i < |a| { assert ScriptTagAt(a, i); } else { assert ScriptTagAt(b, i - |a|); }
    }
  }

  lemma {:induction false} JoinedAreScriptTags(pieces: seq<Text>)
    requires forall i :: 0 <= i < |pieces| ==> ScriptTagsOnly(pieces[i])
    ensures ScriptTagsOnly(Joined(pieces))
    decreases |pieces|
  {
    if pieces != [] {
      var n := |pieces| - 1;
      JoinedAreScriptTags(pieces[..n]);
      ScriptTagsConcat(Joined(pieces[..n]), pieces[n]);
    }
  }

  lemma TagsAreScriptTags(scripts: seq<Text>, prefix: Text)
    ensures ScriptTagsOnly(Tags(scripts, prefix))
  {
    var list := TagList(scripts, prefix);
    forall i | 0 <= i < |list| ensures ScriptTagsOnly(list[i]) { TagIsScriptTag(scripts[i], prefix); }
    JoinedAreScriptTags(list);
  }

  /** Appended script tags neither contain nor complete a `</head>`. */
  lemma NoHeadAppears(html: Text, tags: Text, k: nat)
    requires ScriptTagsOnly(tags) && FindClosingHead(html).None?
    ensures !HeadAt(html + tags, k)
  {
    var s := html + tags;
    if k + 7 <= |html| {
      assert forall j :: k <= j < k + 7 ==> html[j] == s[j];
      assert !HeadAt(html, k);
    } else if k >= |html| {
      if k + 7 <= |s| { assert ScriptTagAt(tags, k - |html|); }
    } else if k + 7 <= |s| {
      assert s[|html|] == tags[0];
    }
  }

  lemma {:induction false} LastHeadIs(s: Text, n: nat, p: nat)
    requires p < n && HeadAt(s, p) && forall k :: p < k < n ==> !HeadAt(s, k)
    ensures LastHeadBelow(s, n) == Some(p)
  {
  }

  /** After an injection the place for the next one is right behind the tags. */
  lemma InjectionPointMoves(html: Text, tags: Text)
    requires ScriptTagsOnly(tags)
    ensures InjectAt(html) <= |html|
    ensures var p := InjectAt(html); InjectAt(html[..p] + tags + html[p..]) == p + |tags|
  {
    var p := InjectAt(html);
    var s := html[..p] + tags + html[p..];
    if FindClosingHead(html).Some? {
      assert forall j :: p <= j < |html| ==> s[j + |tags|] == html[j];
      assert forall j :: p + |tags| <= j < |s| ==> s[j] == html[j - |tags|];
      assert HeadAt(s, p + |tags|);
      forall k | p + |tags| < k < |s| ensures !HeadAt(s, k) {
        assert !HeadAt(html, k - |tags|);
        assert forall j :: k <= j < |s| ==> s[j] == html[j - |tags|];
      }
      LastHeadIs(s, |s|, p + |tags|);
    } else {
      assert s == html + tags;
      forall k | 0 <= k < |s| ensures !HeadAt(s, k) { NoHeadAppears(html, tags, k); }
    }
  }

  lemma InjectBehind(html: Text, ta: Text, tb: Text, p: nat)
    requires p <= |html|
    ensures var s := html[..p] + ta + html[p..];
      s[..p + |ta|] + tb + s[p + |ta|..] == html[..p] + (ta + tb) + html[p..]
  {
    var s := html[..p] + ta + html[p..];
    assert s[..p + |ta|] == html[..p] + ta && s[p + |ta|..] == html[p..];
  }

  /** Injecting twice is injecting both lists at once. */
  lemma InjectComposes(html: Text, a: seq<Text>, b: seq<Text>, prefix: Text)
    ensures Inject(Inject(html, a, prefix), b, prefix) == Inject(html, a + b, prefix)
  {
    if a == [] {
      assert a + b == b;
    } else if b == [] {
      assert a + b == a;
    } else {
      TagsAreScriptTags(a, prefix);
      InjectionPointMoves(html, Tags(a, prefix));
      TagsConcat(a, b, prefix);
      InjectBehind(html, Tags(a, prefix), Tags(b, prefix), InjectAt(html));
    }
  }

  /** The place for the tags is the last `</head>`, or the end if there is none. */
  lemma InjectAtLastHead(html: Text)
    ensures InjectAt(html) <= |html|
    ensures forall k: nat :: HeadAt(html, k) ==> k <= InjectAt(html) && HeadAt(html, InjectAt(html))
    ensures InjectAt(html) == |html| || HeadAt(html, InjectAt(html))
  {
  }

  /** The tags are inserted in one piece; taking them out again restores the document. */
  lemma InjectIsUndone(html: Text, scripts: seq<Text>, prefix: Text)
    requires scripts != []
    ensures var result, tags, p := Inject(html, scripts, prefix), Tags(scripts, prefix), InjectAt(html);
      && p <= |html| && |result| == |html| + |tags|
      && result[p..p + |tags|] == tags
      && result[..p] + result[p + |tags|..] == html
  {
    InjectAtLastHead(html);
    CutOut(html, Tags(scripts, prefix), InjectAt(html));
  }

  lemma CutOut(html: Text, tags: Text, p: nat)
    requires p <= |html|
    ensures var s := html[..p] + tags + html[p..];
      s[p..p + |tags|] == tags && s[..p] + s[p + |tags|..] == html
  {
    var s := html[..p] + tags + html[p..];
    assert s[..p] == html[..p] && s[p + |tags|..] == html[p..];
  }
}
