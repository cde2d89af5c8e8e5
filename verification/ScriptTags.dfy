/** What a script tag says: where its script comes from, and in which order tags stand. */
module ScriptTags {
  import opened Text
  import opened Scripts
  import opened Requests

  /** An absolute address, by its first characters. */
  predicate Remote(script: Text) {
    (|script| >= 7 && script[..7] == "http://") || (|script| >= 8 && script[..8] == "https://")
  }

  lemma StartsWithIff(s: Text, prefix: Text)
    ensures StartsWith(s, prefix) <==> |prefix| <= |s| && s[..|prefix|] == prefix
  {
    if |prefix| <= |s| {
      assert forall i :: 0 <= i < |prefix| ==> s[..|prefix|][i] == s[i];
    }
  }

  lemma RemoteIff(script: Text)
    ensures IsRemoteUrl(script) <==> Remote(script)
  {
    StartsWithIff(script, "http://");
    StartsWithIff(script, "https://");
  }

  /** The address in a tag, without the quotes around it, as a browser reads it. */
  function Address(tag: Text): Text
    requires |tag| >= 25
  {
    Unescape(tag[13..|tag| - 12])
  }

  /** A tag is a script element whose address, read back, is the source; a line break follows. */
  lemma TagIs(script: Text, prefix: Text)
    ensures var tag := Tag(script, prefix);
      && |tag| >= 25 && tag[..13] == "<script src=\"" && tag[|tag| - 12..] == "\"></script>\n"
      && Address(tag) == ScriptSource(script, prefix)
      && forall i :: 13 <= i < |tag| - 12 ==> tag[i] != '\"' && tag[i] != '<' && tag[i] != '>'
  {
    var source := HtmlEscape(ScriptSource(script, prefix));
    var tag := TAG_OPEN + source + TAG_CLOSE;
    assert tag[13..|tag| - 12] == source;
    UnescapeInvertsEscape(ScriptSource(script, prefix));
    EscapeIsInert(ScriptSource(script, prefix));
    assert forall i :: 13 <= i < |tag| - 12 ==> tag[i] == source[i - 13];
  }

  /** The address of a remote script is the one that is configured. */
  lemma RemoteAddress(script: Text, prefix: Text)
    requires Remote(script)
    ensures |Tag(script, prefix)| >= 25 && Address(Tag(script, prefix)) == script
  {
    RemoteIff(script);
    TagIs(script, prefix);
  }

  predicate Slashes(s: Text) {
    forall i :: 0 <= i < |s| ==> Code(s[i]) == 47
  }

  lemma {:induction false} SkipsSlashes(s: Text, n: nat, j: nat)
    requires n <= j <= |s| && (n == 0 || Code(s[n - 1]) != 47) && forall i :: n <= i < j ==> Code(s[i]) == 47
    ensures SkipByteBack(s, '/', j) == n
    decreases j
  {
    if n < j { SkipsSlashes(s, n, j - 1); }
  }

  /** A local one is the name after the prefix and one slash, however many the prefix ends in. */
  lemma LocalAddress(script: Text, prefix: Text, slashes: Text)
    requires !Remote(script) && Slashes(slashes) && (prefix == [] || Code(prefix[|prefix| - 1]) != 47)
    ensures var tag := Tag(script, prefix + slashes);
      |tag| >= 25 && Address(tag) == prefix + "/" + script
  {
    RemoteIff(script);
    TagIs(script, prefix + slashes);
    var s := prefix + slashes;
    assert prefix != [] ==> s[|prefix| - 1] == prefix[|prefix| - 1];
    assert forall i :: |prefix| <= i < |s| ==> s[i] == slashes[i - |prefix|];
    SkipsSlashes(s, |prefix|, |s|);
    assert s[..|prefix|] == prefix;
  }

  /** Tags of one script after another are the tags in that order. */
  lemma TagsInOrder(script: Text, more: seq<Text>, prefix: Text)
    ensures Tags([], prefix) == [] && Tags([script] + more, prefix) == Tag(script, prefix) + Tags(more, prefix)
  {
    assert TagList([], prefix) == [];
    TagsConcat([script], more, prefix);
    var one := TagList([script], prefix);
    assert one == [Tag(script, prefix)] && one[..0] == [];
    assert Joined(one) == Joined([]) + Tag(script, prefix) == Tag(script, prefix);
  }
}
