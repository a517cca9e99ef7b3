/** Well-formed UTF-8 as defined by the grammar in section 4 of RFC 3629,
    which is what Rust's `String::from_utf8` accepts. */
module Utf8 {
  import opened Bytes

  predicate IsTail(b: Byte) {
    0x80 <= b <= 0xBF
  }

  /** Length of the well-formed character that starts `s`, or 0 when `s`
      does not start with one (UTF8-1 .. UTF8-4 of the RFC's grammar). */
  function CharLength(s: Bytes): (n: nat)
    requires |s| > 0
    ensures n <= 4 && n <= |s|
    ensures n == 1 <==> s[0] <= 0x7F
  {
    var b := s[0];
    if b <= 0x7F then 1
    else if 0xC2 <= b <= 0xDF then
      if |s| >= 2 && IsTail(s[1]) then 2 else 0
    else if b == 0xE0 then
      if |s| >= 3 && 0xA0 <= s[1] <= 0xBF && IsTail(s[2]) then 3 else 0
    else if 0xE1 <= b <= 0xEC || 0xEE <= b <= 0xEF then
      if |s| >= 3 && IsTail(s[1]) && IsTail(s[2]) then 3 else 0
    else if b == 0xED then
      if |s| >= 3 && 0x80 <= s[1] <= 0x9F && IsTail(s[2]) then 3 else 0
    else if b == 0xF0 then
      if |s| >= 4 && 0x90 <= s[1] <= 0xBF && IsTail(s[2]) && IsTail(s[3]) then 4 else 0
    else if 0xF1 <= b <= 0xF3 then
      if |s| >= 4 && IsTail(s[1]) && IsTail(s[2]) && IsTail(s[3]) then 4 else 0
    else if b == 0xF4 then
      if |s| >= 4 && 0x80 <= s[1] <= 0x8F && IsTail(s[2]) && IsTail(s[3]) then 4 else 0
    else 0
  }

  /** `UTF8-octets = *( UTF8-char )`. */
  predicate WellFormed(s: Bytes)
    decreases |s|
  {
    s == [] || (CharLength(s) > 0 && WellFormed(s[CharLength(s)..]))
  }

  predicate IsAscii(s: Bytes) {
    forall i :: 0 <= i < |s| ==> s[i] <= 0x7F
  }

  /** Every ASCII byte string is well-formed UTF-8. */
  lemma {:induction false} AsciiIsWellFormed(s: Bytes)
    requires IsAscii(s)
    ensures WellFormed(s)
    decreases |s|
  {
    if s != [] {
      AsciiIsWellFormed(s[1..]);
    }
  }

  /** Well-formed strings are closed under concatenation. */
  lemma {:induction false} ConcatIsWellFormed(a: Bytes, b: Bytes)
    requires WellFormed(a) && WellFormed(b)
    ensures WellFormed(a + b)
    decreases |a|
  {
    if a == [] {
      assert a + b == b;
    } else {
      var n := CharLength(a);
      assert (a + b)[..n] == a[..n];
      CharLengthPrefix(a, a + b);
      assert (a + b)[n..] == a[n..] + b;
      ConcatIsWellFormed(a[n..], b);
    }
  }

  /** The length of the first character depends only on the bytes it spans. */
  lemma CharLengthPrefix(a: Bytes, c: Bytes)
    requires |a| > 0 && CharLength(a) > 0
    requires |a| <= |c| && c[..|a|] == a
    ensures CharLength(c) == CharLength(a)
  {
    assert forall i :: 0 <= i < |a| ==> c[i] == a[i] by {
      forall i | 0 <= i < |a| ensures c[i] == a[i] {
        assert c[..|a|][i] == c[i];
      }
    }
  }

  /** The octets C0, C1 and F5 to FF never appear in well-formed UTF-8
      (section 1 of RFC 3629). */
  lemma {:induction false} ForbiddenOctetsAbsent(s: Bytes, i: nat)
    requires WellFormed(s) && i < |s|
    ensures s[i] != 0xC0 && s[i] != 0xC1 && s[i] < 0xF5
    decreases |s|
  {
    var n := CharLength(s);
    if i >= n {
      ForbiddenOctetsAbsent(s[n..], i - n);
    }
  }
}
