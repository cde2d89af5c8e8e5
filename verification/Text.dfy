/** Byte strings: the Rust `str` operations the proxy uses, on bytes. */
module Text {

  /** One byte, written as the character with that code so that ASCII literals can be used. */
  type byte = c: char | c as int < 256

  type Text = seq<byte>

  datatype Option<+T> = None | Some(value: T)

  datatype Result<+T, +E> = Ok(value: T) | Err(error: E)

  function Byte(n: int): byte
    requires 0 <= n < 256
  {
    n as char
  }

  function Code(b: byte): int {
    b as int
  }

  lemma ConcatAssoc(a: Text, b: Text, c: Text)
    ensures a + b + c == a + (b + c)
  {
  }

  lemma ConcatDiffers(p: Text, a: Text, b: Text)
    requires a != b
    ensures p + a != p + b
  {
    assert (p + a)[|p|..] == a && (p + b)[|p|..] == b;
  }

  lemma SliceOfSlice(s: Text, a: nat, e: nat, k: nat)
    requires a <= e <= |s| && k <= e - a
    ensures s[a..e][..k] == s[a..a + k]
    ensures s[a..e][k..] == s[a + k..e]
  {
  }

  // ---- ASCII case ----

  function LowerByte(b: byte): byte {
    if 'A' <= b <= 'Z' then Byte(Code(b) + 32) else b
  }

  /** `to_ascii_lowercase` */
  function Lower(s: Text): (r: Text)
    ensures |r| == |s|
    ensures forall i :: 0 <= i < |s| ==> r[i] == LowerByte(s[i])
  {
    seq(|s|, i requires 0 <= i < |s| => LowerByte(s[i]))
  }

  /** `eq_ignore_ascii_case` */
  predicate EqFold(a: Text, b: Text) {
    Lower(a) == Lower(b)
  }

  lemma LowerConcat(a: Text, b: Text)
    ensures Lower(a + b) == Lower(a) + Lower(b)
  {
  }

  lemma LowerSlice(s: Text, i: nat, j: nat)
    requires i <= j <= |s|
    ensures Lower(s[i..j]) == Lower(s)[i..j]
  {
  }

  lemma LowerIdempotent(s: Text)
    ensures Lower(Lower(s)) == Lower(s)
  {
  }

  /** Equality up to case, split at the same place on both sides. */
  lemma EqFoldSplit(a: Text, b: Text, a': Text, b': Text)
    requires |a| == |a'|
    ensures EqFold(a + b, a' + b') <==> EqFold(a, a') && EqFold(b, b')
  {
    LowerConcat(a, b);
    LowerConcat(a', b');
    if EqFold(a + b, a' + b') {
      assert Lower(a) == (Lower(a) + Lower(b))[..|a|];
      assert Lower(a') == (Lower(a') + Lower(b'))[..|a|];
      assert Lower(b) == (Lower(a) + Lower(b))[|a|..];
      assert Lower(b') == (Lower(a') + Lower(b'))[|a|..];
    }
  }

  // ---- the bytewise order of `str` ----

  predicate LexLess(a: Text, b: Text)
    decreases |a|
  {
    b != [] && (a == [] || a[0] < b[0] || (a[0] == b[0] && LexLess(a[1..], b[1..])))
  }

  lemma {:induction false} LexIrreflexive(a: Text)
    ensures !LexLess(a, a)
    decreases |a|
  {
    if a != [] { LexIrreflexive(a[1..]); }
  }

  lemma {:induction false} LexTransitive(a: Text, b: Text, c: Text)
    requires LexLess(a, b) && LexLess(b, c)
    ensures LexLess(a, c)
    decreases |a|
  {
    if a != [] && a[0] == b[0] == c[0] { LexTransitive(a[1..], b[1..], c[1..]); }
  }

  lemma {:induction false} LexTotal(a: Text, b: Text)
    ensures LexLess(a, b) || a == b || LexLess(b, a)
    decreases |a|
  {
    if a != [] && b != [] && a[0] == b[0] {
      LexTotal(a[1..], b[1..]);
      assert a == [a[0]] + a[1..] && b == [b[0]] + b[1..];
    }
  }

  /** a and b first differ at k, where a ends or has the smaller code. */
  ghost predicate DiffersAt(a: Text, b: Text, k: nat) {
    k <= |a| && k < |b| && a[..k] == b[..k] && (k == |a| || Code(a[k]) < Code(b[k]))
  }

  /** a comes first in the order of `str`. */
  ghost predicate Before(a: Text, b: Text) {
    exists k: nat :: DiffersAt(a, b, k)
  }

  lemma DiffersInTail(a: Text, b: Text, k: nat)
    requires a != [] && b != [] && a[0] == b[0]
    ensures DiffersAt(a, b, k + 1) <==> DiffersAt(a[1..], b[1..], k)
  {
    if k + 1 <= |a| && k + 1 <= |b| {
      assert a[..k + 1] == [a[0]] + a[1..][..k] && b[..k + 1] == [b[0]] + b[1..][..k];
      if a[..k + 1] == b[..k + 1] { assert a[1..][..k] == a[..k + 1][1..] == b[..k + 1][1..] == b[1..][..k]; }
    }
  }

  lemma DiffersLater(a: Text, b: Text, k: nat)
    requires DiffersAt(a, b, k) && k > 0
    ensures a != [] && b != [] && a[0] == b[0]
  {
    assert a[0] == a[..k][0] && b[0] == b[..k][0];
  }

  /** The order that the maps and sorts use is that one. */
  lemma {:induction false} LexLessIff(a: Text, b: Text)
    ensures LexLess(a, b) <==> Before(a, b)
    decreases |a|
  {
    if a != [] && b != [] && a[0] == b[0] {
      LexLessIff(a[1..], b[1..]);
      if Before(a[1..], b[1..]) {
        var k: nat :| DiffersAt(a[1..], b[1..], k);
        DiffersInTail(a, b, k);
      }
      if Before(a, b) {
        var k: nat :| DiffersAt(a, b, k);
        DiffersInTail(a, b, k - 1);
      }
    } else {
      if LexLess(a, b) { assert DiffersAt(a, b, 0); }
      if Before(a, b) {
        var k: nat :| DiffersAt(a, b, k);
        if k > 0 { DiffersLater(a, b, k); }
      }
    }
  }

  // ---- trimming ----

  predicate AsciiSpace(b: byte) {
    b == ' ' || 9 <= Code(b) <= 13
  }

  /** U+0085 and U+00A0 */
  predicate Space2(a: byte, b: byte) {
    Code(a) == 0xC2 && (Code(b) == 0x85 || Code(b) == 0xA0)
  }

  /** U+1680, U+2000 to U+200A, U+2028, U+2029, U+202F, U+205F and U+3000 */
  predicate Space3(a: byte, b: byte, c: byte) {
    || (Code(a) == 0xE1 && Code(b) == 0x9A && Code(c) == 0x80)
    || (Code(a) == 0xE2 && Code(b) == 0x80
        && (0x80 <= Code(c) <= 0x8A || Code(c) == 0xA8 || Code(c) == 0xA9 || Code(c) == 0xAF))
    || (Code(a) == 0xE2 && Code(b) == 0x81 && Code(c) == 0x9F)
    || (Code(a) == 0xE3 && Code(b) == 0x80 && Code(c) == 0x80)
  }

  /** Length of the scalar with the Unicode property `White_Space` that starts at i; 0 if there is none. */
  function SpaceAt(s: Text, i: nat): (n: nat)
    requires i <= |s|
    ensures i + n <= |s|
  {
    if i + 1 <= |s| && AsciiSpace(s[i]) then 1
    else if i + 2 <= |s| && Space2(s[i], s[i + 1]) then 2
    else if i + 3 <= |s| && Space3(s[i], s[i + 1], s[i + 2]) then 3
    else 0
  }

  /** Length of the white-space scalar that ends at j; 0 if there is none. */
  function SpaceBefore(s: Text, j: nat): (n: nat)
    requires j <= |s|
    ensures n <= j
  {
    if j >= 1 && AsciiSpace(s[j - 1]) then 1
    else if j >= 2 && Space2(s[j - 2], s[j - 1]) then 2
    else if j >= 3 && Space3(s[j - 3], s[j - 2], s[j - 1]) then 3
    else 0
  }

  function SkipSpace(s: Text, i: nat): (r: nat)
    requires i <= |s|
    ensures i <= r <= |s| && SpaceAt(s, r) == 0
    decreases |s| - i
  {
    if SpaceAt(s, i) == 0 then i else SkipSpace(s, i + SpaceAt(s, i))
  }

  function SkipSpaceBack(s: Text, j: nat): (r: nat)
    requires j <= |s|
    ensures r <= j && SpaceBefore(s, r) == 0
    decreases j
  {
    if SpaceBefore(s, j) == 0 then j else SkipSpaceBack(s, j - SpaceBefore(s, j))
  }

  function TrimStart(s: Text): Text {
    s[SkipSpace(s, 0)..]
  }

  function TrimEnd(s: Text): Text {
    s[..SkipSpaceBack(s, |s|)]
  }

  function Trim(s: Text): Text {
    TrimEnd(TrimStart(s))
  }

  function SkipByte(s: Text, c: byte, i: nat): (k: nat)
    requires i <= |s|
    ensures i <= k <= |s|
    decreases |s| - i
  {
    if i < |s| && s[i] == c then SkipByte(s, c, i + 1) else i
  }

  function SkipByteBack(s: Text, c: byte, j: nat): (k: nat)
    requires j <= |s|
    ensures k <= j
    decreases j
  {
    if j > 0 && s[j - 1] == c then SkipByteBack(s, c, j - 1) else j
  }

  lemma {:induction false} SkipByteBackStops(s: Text, c: byte, j: nat)
    requires j <= |s|
    ensures var k := SkipByteBack(s, c, j); k > 0 ==> s[k - 1] != c
  {
    if j > 0 && s[j - 1] == c { SkipByteBackStops(s, c, j - 1); }
  }

  /** `trim_start_matches(c)` */
  function TrimStartByte(s: Text, c: byte): Text {
    s[SkipByte(s, c, 0)..]
  }

  /** `trim_end_matches(c)` */
  function TrimEndByte(s: Text, c: byte): Text {
    s[..SkipByteBack(s, c, |s|)]
  }

  function IndexOf(s: Text, b: byte, i: nat): (k: nat)
    requires i <= |s|
    ensures i <= k <= |s|
    ensures k < |s| ==> s[k] == b
    ensures forall j :: i <= j < k ==> s[j] != b
    decreases |s| - i
  {
    if i == |s| || s[i] == b then i else IndexOf(s, b, i + 1)
  }
}
