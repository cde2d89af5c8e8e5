/** White space by its code points, in UTF-8, and what `trim` takes off. */
module Spaces {
  import opened Text

  /** The code points with the Unicode property `White_Space`. */
  predicate WhiteSpace(n: int) {
    || 9 <= n <= 13 || n == 32 || n == 133 || n == 160 || n == 5760 || 8192 <= n <= 8202
    || n == 8232 || n == 8233 || n == 8239 || n == 8287 || n == 12288
  }

  predicate Follows(b: byte) {
    128 <= Code(b) < 192
  }

  /** w is the UTF-8 form of the code point n, for n below 65536 (section 3 of RFC 3629). */
  predicate Encodes(w: Text, n: int) {
    || (|w| == 1 && 0 <= n < 128 && n == Code(w[0]))
    || (|w| == 2 && 128 <= n < 2048 && Follows(w[1]) && n == 64 * (Code(w[0]) - 192) + Code(w[1]) - 128)
    || (|w| == 3 && 2048 <= n < 65536 && Follows(w[1]) && Follows(w[2])
        && n == 4096 * (Code(w[0]) - 224) + 64 * (Code(w[1]) - 128) + Code(w[2]) - 128)
  }

  ghost predicate IsWhite(w: Text, n: int) {
    WhiteSpace(n) && Encodes(w, n)
  }

  /** One white-space character. */
  ghost predicate White(w: Text) {
    exists n: int :: IsWhite(w, n)
  }

  lemma Space1Iff(a: byte)
    ensures AsciiSpace(a) <==> White([a])
  {
    if AsciiSpace(a) { assert IsWhite([a], Code(a)); }
    if White([a]) { var n: int :| IsWhite([a], n); }
  }

  lemma Space2Iff(a: byte, b: byte)
    ensures Space2(a, b) <==> White([a, b])
  {
    if Space2(a, b) { assert IsWhite([a, b], 64 * (Code(a) - 192) + Code(b) - 128); }
    if White([a, b]) { var n: int :| IsWhite([a, b], n); }
  }

  lemma Space3Iff(a: byte, b: byte, c: byte)
    ensures Space3(a, b, c) <==> White([a, b, c])
  {
    if Space3(a, b, c) { Space3IsWhite(a, b, c); }
    if White([a, b, c]) {
      var n: int :| IsWhite([a, b, c], n);
      WhiteIsSpace3(a, b, c, n);
    }
  }

  lemma Space3IsWhite(a: byte, b: byte, c: byte)
    requires Space3(a, b, c)
    ensures White([a, b, c])
  {
    var n := (Code(a) - 224) * 4096 + (Code(b) - 128) * 64 + Code(c) - 128;
    assert n == 5760 || 8192 <= n <= 8202 || n == 8232 || n == 8233 || n == 8239 || n == 8287 || n == 12288;
    assert IsWhite([a, b, c], n);
  }

  lemma WhiteIsSpace3(a: byte, b: byte, c: byte, n: int)
    requires IsWhite([a, b, c], n)
    ensures Space3(a, b, c)
  {
    assert n == 5760 || 8192 <= n <= 8202 || n == 8232 || n == 8233 || n == 8239 || n == 8287 || n == 12288;
  }

  lemma WhiteLength(w: Text)
    ensures White(w) ==> 1 <= |w| <= 3
  {
    if White(w) { var n: int :| IsWhite(w, n); }
  }

  lemma ShortSlices(s: Text, i: nat)
    requires i < |s|
    ensures s[i..i + 1] == [s[i]]
    ensures i + 2 <= |s| ==> s[i..i + 2] == [s[i], s[i + 1]]
    ensures i + 3 <= |s| ==> s[i..i + 3] == [s[i], s[i + 1], s[i + 2]]
  {
  }

  /** A white-space character of n bytes starts at i. */
  lemma SpaceAtIff(s: Text, i: nat, n: nat)
    requires n > 0 && i + n <= |s|
    ensures SpaceAt(s, i) == n <==> White(s[i..i + n])
  {
    ShortSlices(s, i);
    match n
    case 1 => Space1Iff(s[i]);
    case 2 => Space2Iff(s[i], s[i + 1]);
    case 3 => Space3Iff(s[i], s[i + 1], s[i + 2]);
    case _ => WhiteLength(s[i..i + n]);
  }

  lemma SpaceBeforeCases(s: Text, j: nat)
    requires 0 < j <= |s|
    ensures SpaceBefore(s, j) <= 3
    ensures SpaceBefore(s, j) == 1 <==> AsciiSpace(s[j - 1])
    ensures SpaceBefore(s, j) == 2 <==> j >= 2 && Space2(s[j - 2], s[j - 1])
    ensures SpaceBefore(s, j) == 3 <==> j >= 3 && Space3(s[j - 3], s[j - 2], s[j - 1])
  {
  }

  lemma SpaceBefore2Iff(s: Text, j: nat)
    requires 2 <= j <= |s|
    ensures SpaceBefore(s, j) == 2 <==> White(s[j - 2..j])
  {
    SpaceBeforeCases(s, j);
    assert s[j - 2..j] == [s[j - 2], s[j - 1]];
    Space2Iff(s[j - 2], s[j - 1]);
  }

  lemma SpaceBefore3Iff(s: Text, j: nat)
    requires 3 <= j <= |s|
    ensures SpaceBefore(s, j) == 3 <==> White(s[j - 3..j])
  {
    SpaceBeforeCases(s, j);
    assert s[j - 3..j] == [s[j - 3], s[j - 2], s[j - 1]];
    Space3Iff(s[j - 3], s[j - 2], s[j - 1]);
  }

  lemma SpaceBefore1Iff(s: Text, j: nat)
    requires 1 <= j <= |s|
    ensures SpaceBefore(s, j) == 1 <==> White(s[j - 1..j])
  {
    SpaceBeforeCases(s, j);
    assert s[j - 1..j] == [s[j - 1]];
    Space1Iff(s[j - 1]);
  }

  /** A white-space character of n bytes ends at j. */
  lemma SpaceBeforeIff(s: Text, j: nat, n: nat)
    requires 0 < n <= j <= |s|
    ensures SpaceBefore(s, j) == n <==> White(s[j - n..j])
  {
    SpaceBeforeCases(s, j);
    match n
    case 1 => SpaceBefore1Iff(s, j);
    case 2 => SpaceBefore2Iff(s, j);
    case 3 => SpaceBefore3Iff(s, j);
    case _ => WhiteLength(s[j - n..j]);
  }

  /** White-space characters, one after the other. */
  ghost predicate AllWhite(chars: seq<Text>) {
    forall i :: 0 <= i < |chars| ==> White(chars[i])
  }

  function Flat(chars: seq<Text>): Text {
    if chars == [] then [] else chars[0] + Flat(chars[1..])
  }

  /** Nothing but white space. */
  ghost predicate Blank(s: Text) {
    exists chars :: AllWhite(chars) && s == Flat(chars)
  }

  ghost predicate StartsWhite(s: Text) {
    exists n: nat :: WhiteHead(s, n)
  }

  ghost predicate WhiteHead(s: Text, n: nat) {
    0 < n <= |s| && White(s[..n])
  }

  ghost predicate EndsWhite(s: Text) {
    exists n: nat :: WhiteTail(s, n)
  }

  ghost predicate WhiteTail(s: Text, n: nat) {
    0 < n <= |s| && White(s[|s| - n..])
  }

  lemma StartsWhiteIff(s: Text)
    ensures StartsWhite(s) <==> SpaceAt(s, 0) > 0
  {
    if StartsWhite(s) {
      var n: nat :| WhiteHead(s, n);
      WhiteHeadIff(s, n);
    }
    if SpaceAt(s, 0) > 0 { WhiteHeadIff(s, SpaceAt(s, 0)); }
  }

  lemma WhiteHeadIff(s: Text, n: nat)
    requires 0 < n <= |s|
    ensures WhiteHead(s, n) <==> SpaceAt(s, 0) == n
  {
    SpaceAtIff(s, 0, n);
    assert s[0..n] == s[..n];
  }

  lemma EndsWhiteIff(s: Text)
    ensures EndsWhite(s) <==> SpaceBefore(s, |s|) > 0
  {
    if EndsWhite(s) {
      var n: nat :| WhiteTail(s, n);
      WhiteTailIff(s, n);
    }
    if SpaceBefore(s, |s|) > 0 { WhiteTailIff(s, SpaceBefore(s, |s|)); }
  }

  lemma WhiteTailIff(s: Text, n: nat)
    requires 0 < n <= |s|
    ensures WhiteTail(s, n) <==> SpaceBefore(s, |s|) == n
  {
    SpaceBeforeIff(s, |s|, n);
    assert s[|s| - n..|s|] == s[|s| - n..];
  }

  // ---- what is skipped at the start ----

  lemma ShiftSpaceAt(w: Text, t: Text, i: nat)
    requires i <= |t|
    ensures SpaceAt(w + t, |w| + i) == SpaceAt(t, i)
  {
    assert forall k :: 0 <= k < |t| ==> (w + t)[|w| + k] == t[k];
  }

  lemma {:induction false} ShiftSkip(w: Text, t: Text, i: nat)
    requires i <= |t|
    ensures SkipSpace(w + t, |w| + i) == |w| + SkipSpace(t, i)
    decreases |t| - i
  {
    ShiftSpaceAt(w, t, i);
    if SpaceAt(t, i) > 0 { ShiftSkip(w, t, i + SpaceAt(t, i)); }
  }

  lemma SkipFirst(w: Text, t: Text)
    requires White(w)
    ensures SkipSpace(w + t, 0) == |w| + SkipSpace(t, 0)
  {
    WhiteLength(w);
    assert (w + t)[0..0 + |w|] == w;
    SpaceAtIff(w + t, 0, |w|);
    ShiftSkip(w, t, 0);
  }

  lemma {:induction false} SkipsAll(chars: seq<Text>, rest: Text)
    requires AllWhite(chars) && SpaceAt(rest, 0) == 0
    ensures SkipSpace(Flat(chars) + rest, 0) == |Flat(chars)|
    decreases |chars|
  {
    if chars != [] {
      SkipsAll(chars[1..], rest);
      SkipFirst(chars[0], Flat(chars[1..]) + rest);
      ConcatAssoc(chars[0], Flat(chars[1..]), rest);
    }
  }

  lemma {:induction false} SkippedIsWhite(s: Text) returns (chars: seq<Text>)
    ensures AllWhite(chars) && s[..SkipSpace(s, 0)] == Flat(chars)
    decreases |s|
  {
    chars := [];
    var n := SpaceAt(s, 0);
    if n > 0 {
      var w, t := s[0..n], s[n..];
      SpaceAtIff(s, 0, n);
      var more := SkippedIsWhite(t);
      chars := [w] + more;
      assert chars[1..] == more && s == w + t;
      ShiftSkip(w, t, 0);
      HeadOfConcat(w, t, SkipSpace(t, 0));
    }
  }

  lemma HeadOfConcat(w: Text, t: Text, n: nat)
    requires n <= |t|
    ensures (w + t)[..|w| + n] == w + t[..n]
  {
  }

  // ---- and at the end ----

  lemma {:induction false} FlatSnoc(chars: seq<Text>, w: Text)
    ensures Flat(chars + [w]) == Flat(chars) + w
    decreases |chars|
  {
    if chars == [] {
      assert chars + [w] == [w] && Flat([w]) == w + Flat([]);
    } else {
      FlatSnoc(chars[1..], w);
      assert (chars + [w])[1..] == chars[1..] + [w];
      ConcatAssoc(chars[0], Flat(chars[1..]), w);
    }
  }

  lemma PrefixSpaceBefore(t: Text, w: Text, j: nat)
    requires j <= |t|
    ensures SpaceBefore(t + w, j) == SpaceBefore(t, j)
  {
    assert forall k :: 0 <= k < j ==> (t + w)[k] == t[k];
  }

  lemma {:induction false} PrefixSkipBack(t: Text, w: Text, j: nat)
    requires j <= |t|
    ensures SkipSpaceBack(t + w, j) == SkipSpaceBack(t, j)
    decreases j
  {
    PrefixSpaceBefore(t, w, j);
    if SpaceBefore(t, j) > 0 { PrefixSkipBack(t, w, j - SpaceBefore(t, j)); }
  }

  lemma SkipLast(t: Text, w: Text)
    requires White(w)
    ensures SkipSpaceBack(t + w, |t + w|) == SkipSpaceBack(t, |t|)
  {
    WhiteLength(w);
    assert (t + w)[|t + w| - |w|..|t + w|] == w;
    SpaceBeforeIff(t + w, |t + w|, |w|);
    PrefixSkipBack(t, w, |t|);
  }

  lemma {:induction false} SkipsAllBack(core: Text, chars: seq<Text>)
    requires AllWhite(chars) && SpaceBefore(core, |core|) == 0
    ensures SkipSpaceBack(core + Flat(chars), |core + Flat(chars)|) == |core|
    decreases |chars|
  {
    if chars == [] {
      assert core + Flat(chars) == core;
    } else {
      var n := |chars| - 1;
      SkipsAllBack(core, chars[..n]);
      FlatSnoc(chars[..n], chars[n]);
      assert chars[..n] + [chars[n]] == chars;
      ConcatAssoc(core, Flat(chars[..n]), chars[n]);
      SkipLast(core + Flat(chars[..n]), chars[n]);
    }
  }

  function Trailing(s: Text): Text {
    s[SkipSpaceBack(s, |s|)..]
  }

  lemma TrailingStep(s: Text) returns (t: Text, w: Text)
    requires SpaceBefore(s, |s|) > 0
    ensures s == t + w && w != [] && White(w) && Trailing(s) == Trailing(t) + w
  {
    var n := SpaceBefore(s, |s|);
    t, w := s[..|s| - n], s[|s| - n..|s|];
    SpaceBeforeIff(s, |s|, n);
    assert s == t + w;
    TrailingOfBoth(t, w);
  }

  lemma TrailingOfBoth(t: Text, w: Text)
    requires SpaceBefore(t + w, |t + w|) == |w| > 0
    ensures Trailing(t + w) == Trailing(t) + w
  {
    PrefixSkipBack(t, w, |t|);
    TailOfConcat(t, w, SkipSpaceBack(t, |t|));
  }

  lemma {:induction false} SkippedBackIsWhite(s: Text) returns (chars: seq<Text>)
    ensures AllWhite(chars) && Trailing(s) == Flat(chars)
    decreases |s|
  {
    chars := [];
    if SpaceBefore(s, |s|) > 0 {
      var t, w := TrailingStep(s);
      var more := SkippedBackIsWhite(t);
      FlatSnoc(more, w);
      chars := more + [w];
    }
  }

  lemma TailOfConcat(t: Text, w: Text, n: nat)
    requires n <= |t|
    ensures (t + w)[n..] == t[n..] + w
  {
  }

  // ---- trim ----

  lemma TrimStartIs(s: Text) returns (a: Text)
    ensures s == a + TrimStart(s) && Blank(a) && SpaceAt(TrimStart(s), 0) == 0
  {
    var i := SkipSpace(s, 0);
    a := s[..i];
    var chars := SkippedIsWhite(s);
    assert s == a + s[i..];
    ShiftSpaceAt(a, s[i..], 0);
  }

  lemma TrimEndIs(s: Text) returns (b: Text)
    ensures s == TrimEnd(s) + b && Blank(b) && SpaceBefore(TrimEnd(s), |TrimEnd(s)|) == 0
  {
    var j := SkipSpaceBack(s, |s|);
    b := s[j..];
    var chars := SkippedBackIsWhite(s);
    assert s == s[..j] + b;
    PrefixSpaceBefore(s[..j], b, j);
  }

  /** What is left does not begin with white space that is cut off with its end. */
  lemma PrefixSpaceAt(t: Text, w: Text)
    requires SpaceAt(t + w, 0) == 0
    ensures SpaceAt(t, 0) == 0
  {
    assert forall k :: 0 <= k < |t| ==> (t + w)[k] == t[k];
  }

  /** `trim` takes white space off both ends, and all of it. */
  lemma TrimIs(s: Text) returns (a: Text, b: Text)
    ensures s == a + Trim(s) + b && Blank(a) && Blank(b)
    ensures !StartsWhite(Trim(s)) && !EndsWhite(Trim(s))
  {
    a := TrimStartIs(s);
    b := TrimEndIs(TrimStart(s));
    ConcatAssoc(a, Trim(s), b);
    PrefixSpaceAt(Trim(s), b);
    StartsWhiteIff(Trim(s));
    EndsWhiteIff(Trim(s));
  }

  lemma WhiteLead(w: Text)
    requires White(w)
    ensures w != [] && (Code(w[0]) < 128 || 192 < Code(w[0]))
  {
    var n: int :| IsWhite(w, n);
  }

  /** White space cannot continue a character. */
  lemma BlackBeforeWhite(core: Text, b: Text)
    requires core != [] && SpaceAt(core, 0) == 0 && Blank(b)
    ensures SpaceAt(core + b, 0) == 0
  {
    if b == [] {
      assert core + b == core;
    } else {
      var chars :| AllWhite(chars) && b == Flat(chars);
      WhiteLead(chars[0]);
      BlackBeforeLead(core, b);
    }
  }

  lemma BlackBeforeLead(core: Text, b: Text)
    requires core != [] && SpaceAt(core, 0) == 0 && b != [] && (Code(b[0]) < 128 || 192 < Code(b[0]))
    ensures SpaceAt(core + b, 0) == 0
  {
    var s := core + b;
    assert forall k :: 0 <= k < |core| ==> s[k] == core[k];
    assert s[|core|] == b[0];
  }

  /** White space around something that neither starts nor ends in white space is exactly what comes off. */
  lemma TrimOf(a: Text, core: Text, b: Text)
    requires Blank(a) && Blank(b) && core != [] && !StartsWhite(core) && !EndsWhite(core)
    ensures Trim(a + core + b) == core
  {
    StartsWhiteIff(core);
    EndsWhiteIff(core);
    BlackBeforeWhite(core, b);
    TrimsLead(a, core + b);
    TrimsTrail(core, b);
    ConcatAssoc(a, core, b);
  }

  lemma TrimsLead(a: Text, rest: Text)
    requires Blank(a) && SpaceAt(rest, 0) == 0
    ensures TrimStart(a + rest) == rest
  {
    var chars :| AllWhite(chars) && a == Flat(chars);
    SkipsAll(chars, rest);
  }

  lemma TrimsTrail(core: Text, b: Text)
    requires Blank(b) && SpaceBefore(core, |core|) == 0
    ensures TrimEnd(core + b) == core
  {
    var chars :| AllWhite(chars) && b == Flat(chars);
    SkipsAllBack(core, chars);
  }

  /** An ASCII character that is not white space. */
  predicate Black(b: byte) {
    Code(b) < 128 && !WhiteSpace(Code(b))
  }

  lemma BlackEnds(s: Text)
    requires s != [] && Black(s[0]) && Black(s[|s| - 1])
    ensures !StartsWhite(s) && !EndsWhite(s)
  {
    StartsWhiteIff(s);
    EndsWhiteIff(s);
  }
}
