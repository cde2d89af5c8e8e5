/** UTF-8 validity (section 4 of RFC 3629) and the character boundaries of a Rust `str`. */
module Utf8 {
  import opened Text

  /** UTF8-tail */
  predicate Continuation(b: byte) {
    0x80 <= Code(b) < 0xC0
  }

  /** Length of the UTF8-char that starts at i; 0 if there is none. */
  function ScalarLen(s: Text, i: nat): (n: nat)
    requires i <= |s|
    ensures i + n <= |s|
    ensures n > 0 ==> !Continuation(s[i])
    ensures forall k :: i < k < i + n ==> Continuation(s[k])
  {
    if i + 1 <= |s| && Code(s[i]) < 0x80 then 1
    else if i + 2 <= |s| && 0xC2 <= Code(s[i]) <= 0xDF && Continuation(s[i + 1]) then 2
    else if i + 3 <= |s| && Lead3(Code(s[i]), Code(s[i + 1])) && Continuation(s[i + 2]) then 3
    else if i + 4 <= |s| && Lead4(Code(s[i]), Code(s[i + 1])) && Continuation(s[i + 2]) && Continuation(s[i + 3]) then 4
    else 0
  }

  predicate Lead3(a: int, b: int) {
    || (a == 0xE0 && 0xA0 <= b <= 0xBF)
    || (0xE1 <= a <= 0xEC && 0x80 <= b <= 0xBF)
    || (a == 0xED && 0x80 <= b <= 0x9F)
    || (0xEE <= a <= 0xEF && 0x80 <= b <= 0xBF)
  }

  predicate Lead4(a: int, b: int) {
    || (a == 0xF0 && 0x90 <= b <= 0xBF)
    || (0xF1 <= a <= 0xF3 && 0x80 <= b <= 0xBF)
    || (a == 0xF4 && 0x80 <= b <= 0x8F)
  }

  /** UTF8-octets = *( UTF8-char ), read from position i */
  predicate Utf8Octets(s: Text, i: nat)
    requires i <= |s|
    decreases |s| - i
  {
    i == |s| || (ScalarLen(s, i) > 0 && Utf8Octets(s, i + ScalarLen(s, i)))
  }

  /** `str::is_char_boundary`: the positions at which a `str` may be sliced. */
  predicate IsCharBoundary(s: Text, i: int) {
    0 <= i <= |s| && (i == 0 || i == |s| || !Continuation(s[i]))
  }

  /** Unless the byte at i is a continuation byte, a scalar starts there and is followed by a boundary. */
  predicate ScalarAt(s: Text, i: nat)
    requires i < |s|
  {
    Continuation(s[i]) || (ScalarLen(s, i) > 0 && IsCharBoundary(s, i + ScalarLen(s, i)))
  }

  /** Validity, read off locally: every byte that is not a continuation byte starts a scalar. */
  ghost predicate ValidUtf8(s: Text) {
    && (s != [] ==> !Continuation(s[0]))
    && (forall i :: 0 <= i < |s| ==> ScalarAt(s, i))
  }

  /** The local reading agrees with the grammar of the standard. */
  lemma ValidIsOctets(s: Text)
    ensures ValidUtf8(s) <==> Utf8Octets(s, 0)
  {
    if ValidUtf8(s) { ValidToOctets(s, 0); }
    if Utf8Octets(s, 0) && s != [] {
      OctetsStart(s, 0);
      forall i | 0 <= i < |s| ensures ScalarAt(s, i) {
        if !Continuation(s[i]) { OctetsToValid(s, 0, i); }
      }
    }
  }

  lemma {:induction false} ValidToOctets(s: Text, i: nat)
    requires ValidUtf8(s) && IsCharBoundary(s, i)
    ensures Utf8Octets(s, i)
    decreases |s| - i
  {
    if i < |s| {
      assert ScalarAt(s, i);
      ValidToOctets(s, i + ScalarLen(s, i));
    }
  }

  lemma OctetsStart(s: Text, i: nat)
    requires i < |s| && Utf8Octets(s, i)
    ensures !Continuation(s[i])
  {
  }

  lemma {:induction false} OctetsToValid(s: Text, i: nat, k: nat)
    requires i <= k < |s| && Utf8Octets(s, i) && !Continuation(s[k])
    ensures ScalarAt(s, k)
    decreases |s| - i
  {
    var n := ScalarLen(s, i);
    if k == i {
      if i + n < |s| { OctetsStart(s, i + n); }
    } else {
      assert i + n <= k;
      OctetsToValid(s, i + n, k);
    }
  }

  /** `&s[i..j]`, which panics away from character boundaries. */
  function Slice(s: Text, i: nat, j: nat): Text
    requires i <= j
    requires IsCharBoundary(s, i) && IsCharBoundary(s, j)
  {
    s[i..j]
  }

  /** A scalar is recognised from its own bytes. */
  lemma ScalarLenLocal(s: Text, i: nat, t: Text, i': nat)
    requires i <= |s| && i' + ScalarLen(s, i) <= |t|
    requires s[i..i + ScalarLen(s, i)] == t[i'..i' + ScalarLen(s, i)]
    requires ScalarLen(s, i) > 0
    ensures ScalarLen(t, i') == ScalarLen(s, i)
  {
    var n := ScalarLen(s, i);
    var x := s[i..i + n];
    assert s[i] == x[0] == t[i'];
    if n > 1 { assert s[i + 1] == x[1] == t[i' + 1]; }
    if n > 2 { assert s[i + 2] == x[2] == t[i' + 2]; }
    if n > 3 { assert s[i + 3] == x[3] == t[i' + 3]; }
  }

  lemma ValidConcat(a: Text, b: Text)
    requires ValidUtf8(a) && ValidUtf8(b)
    ensures ValidUtf8(a + b)
  {
    var s := a + b;
    forall i | 0 <= i < |s| ensures ScalarAt(s, i) {
      if !Continuation(s[i]) {
        if i < |a| {
          assert ScalarAt(a, i);
          assert a[i..i + ScalarLen(a, i)] == s[i..i + ScalarLen(a, i)];
          ScalarLenLocal(a, i, s, i);
        } else {
          var k := i - |a|;
          assert ScalarAt(b, k);
          assert b[k..k + ScalarLen(b, k)] == s[i..i + ScalarLen(b, k)];
          ScalarLenLocal(b, k, s, i);
        }
      }
    }
  }

  /** A slice of a valid string between character boundaries is valid. */
  lemma ValidSlice(s: Text, i: nat, j: nat)
    requires ValidUtf8(s) && i <= j && IsCharBoundary(s, i) && IsCharBoundary(s, j)
    ensures ValidUtf8(s[i..j])
  {
    var t := s[i..j];
    forall k | 0 <= k < |t| ensures ScalarAt(t, k) {
      assert t[k] == s[i + k];
      if !Continuation(t[k]) {
        assert ScalarAt(s, i + k);
        var n := ScalarLen(s, i + k);
        assert i + k + n <= j;
        assert s[i + k..i + k + n] == t[k..k + n];
        ScalarLenLocal(s, i + k, t, k);
      }
    }
  }

  /** A valid string that occurs, up to ASCII case, at a boundary of a valid string ends at a boundary. */
  lemma {:induction false} MatchEndsAtBoundary(s: Text, i: nat, p: Text, k: nat)
    requires ValidUtf8(s) && ValidUtf8(p)
    requires i + |p| <= |s| && k <= |p|
    requires forall m :: 0 <= m < |p| ==> LowerByte(p[m]) == LowerByte(s[i + m])
    requires IsCharBoundary(s, i + k) && IsCharBoundary(p, k)
    ensures IsCharBoundary(s, i + |p|)
    decreases |p| - k
  {
    if k < |p| {
      assert LowerByte(s[i + k]) == LowerByte(p[k]);
      assert ScalarAt(p, k) && ScalarAt(s, i + k);
      ScalarLenFold(s, i + k, p, k);
      MatchEndsAtBoundary(s, i, p, k + ScalarLen(p, k));
    }
  }

  /** Case folding moves no scalar boundary. */
  lemma ScalarLenFold(s: Text, i: nat, p: Text, k: nat)
    requires k < |p| && i + (|p| - k) <= |s|
    requires forall m :: k <= m < |p| ==> LowerByte(s[i + m - k]) == LowerByte(p[m])
    requires ScalarLen(p, k) > 0
    ensures ScalarLen(s, i) == ScalarLen(p, k)
  {
    var n := ScalarLen(p, k);
    assert LowerByte(s[i + k - k]) == LowerByte(p[k]);
    if n > 1 { assert LowerByte(s[i + (k + 1) - k]) == LowerByte(p[k + 1]); }
    if n > 2 { assert LowerByte(s[i + (k + 2) - k]) == LowerByte(p[k + 2]); }
    if n > 3 { assert LowerByte(s[i + (k + 3) - k]) == LowerByte(p[k + 3]); }
  }
}
