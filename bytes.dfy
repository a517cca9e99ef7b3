/** Bytes, the byte classes the parser tests for, and the sequence
    operations the specifications of the parser are written with. */
module Bytes {

  newtype Byte = b: int | 0 <= b < 0x100

  type Bytes = seq<Byte>

  const NUL: Byte := 0x00
  const TAB: Byte := 0x09
  const LF: Byte := 0x0A
  const CR: Byte := 0x0D
  const SPACE: Byte := 0x20
  const HASH: Byte := 0x23        // '#'
  const MINUS: Byte := 0x2D       // '-'
  const DOT: Byte := 0x2E         // '.'
  const ZERO: Byte := 0x30        // '0'
  const NINE: Byte := 0x39        // '9'
  const SEMICOLON: Byte := 0x3B   // ';'
  const EQUALS: Byte := 0x3D      // '='
  const AT: Byte := 0x40          // '@'
  const BACKSLASH: Byte := 0x5C   // '\\'

  /** The four bytes the parser ignores (`Parser::IGNORE_BYTES`). */
  predicate IsWs(b: Byte) {
    b == SPACE || b == LF || b == CR || b == TAB
  }

  predicate IsDigit(b: Byte) {
    ZERO <= b <= NINE
  }

  /** The value of a decimal digit byte; other bytes weigh nothing. */
  function DigitValue(b: Byte): (d: nat)
    ensures d <= 9
    ensures !IsDigit(b) ==> d == 0
  {
    if IsDigit(b) then b as int - ZERO as int else 0
  }

  /** Number of occurrences of `x` in `s`. */
  function Count(s: Bytes, x: Byte): (n: nat)
    ensures n <= |s|
    ensures n == 0 <==> x !in s
  {
    if s == [] then 0
    else Count(s[..|s| - 1], x) + (if s[|s| - 1] == x then 1 else 0)
  }

  /** Sum of the values of the digit bytes of `s`, with no positional weight. */
  function DigitSum(s: Bytes): nat {
    if s == [] then 0 else DigitSum(s[..|s| - 1]) + DigitValue(s[|s| - 1])
  }

  /** `s` with every ignorable byte removed. */
  function DropWs(s: Bytes): (r: Bytes)
    ensures |r| <= |s|
    ensures forall i :: 0 <= i < |r| ==> !IsWs(r[i])
    ensures forall b :: b in r ==> b in s
  {
    if s == [] then []
    else DropWs(s[..|s| - 1]) + (if IsWs(s[|s| - 1]) then [] else [s[|s| - 1]])
  }

  /** `s` with every occurrence of `x` removed. */
  function Without(s: Bytes, x: Byte): (r: Bytes)
    ensures |r| <= |s|
    ensures x !in r
    ensures forall b :: b in r ==> b in s
  {
    if s == [] then []
    else Without(s[..|s| - 1], x) + (if s[|s| - 1] == x then [] else [s[|s| - 1]])
  }

  /** `s` without its leading run of ignorable bytes. */
  function TrimLeadingWs(s: Bytes): (r: Bytes)
    ensures |r| <= |s|
    ensures r == [] || !IsWs(r[0])
    ensures forall b :: b in r ==> b in s
  {
    if s != [] && IsWs(s[0]) then TrimLeadingWs(s[1..]) else s
  }

  /** Position of the first `x` in `s`, or `|s|` when there is none. */
  function IndexOf(s: Bytes, x: Byte): (k: nat)
    ensures k <= |s|
    ensures k < |s| ==> s[k] == x
    ensures forall i :: 0 <= i < k ==> s[i] != x
  {
    if s == [] then 0
    else if s[0] == x then 0
    else 1 + IndexOf(s[1..], x)
  }

  /** Position of the last `x` in `s`. */
  function LastIndexOf(s: Bytes, x: Byte): (k: nat)
    requires x in s
    ensures k < |s| && s[k] == x
    ensures forall i :: k < i < |s| ==> s[i] != x
  {
    if s[|s| - 1] == x then |s| - 1
    else
      assert s == s[..|s| - 1] + [s[|s| - 1]];
      LastIndexOf(s[..|s| - 1], x)
  }

  /** Counting distributes over concatenation. */
  lemma {:induction false} CountAppend(a: Bytes, b: Bytes, x: Byte)
    ensures Count(a + b, x) == Count(a, x) + Count(b, x)
    decreases |b|
  {
    if b == [] {
      assert a + b == a;
    } else {
      var b' := b[..|b| - 1];
      assert (a + b)[..|a + b| - 1] == a + b';
      CountAppend(a, b', x);
    }
  }

  /** A prefix never holds more occurrences than the whole sequence. */
  lemma CountPrefix(s: Bytes, j: nat, x: Byte)
    requires j <= |s|
    ensures Count(s[..j], x) <= Count(s, x)
  {
    assert s == s[..j] + s[j..];
    CountAppend(s[..j], s[j..], x);
  }

  /** The digit sum distributes over concatenation. */
  lemma {:induction false} DigitSumAppend(a: Bytes, b: Bytes)
    ensures DigitSum(a + b) == DigitSum(a) + DigitSum(b)
    decreases |b|
  {
    if b == [] {
      assert a + b == a;
    } else {
      var b' := b[..|b| - 1];
      assert (a + b)[..|a + b| - 1] == a + b';
      DigitSumAppend(a, b');
    }
  }

  /** Nine per byte bounds the digit sum, so the machine-width total of
      the original never overflows on any input that fits in memory. */
  lemma {:induction false} DigitSumBound(s: Bytes)
    ensures DigitSum(s) <= 9 * |s|
  {
    if s != [] {
      DigitSumBound(s[..|s| - 1]);
    }
  }

  /** The digit sum ignores the order of the bytes. */
  lemma DigitSumSwap(a: Bytes, b: Bytes)
    ensures DigitSum(a + b) == DigitSum(b + a)
  {
    DigitSumAppend(a, b);
    DigitSumAppend(b, a);
  }

  /** Trimming a sequence extended by one byte: the new byte is kept unless
      it is ignorable and nothing but ignorable bytes precede it. */
  lemma {:induction false} TrimLeadingWsSnoc(s: Bytes, b: Byte)
    ensures TrimLeadingWs(s + [b]) ==
      if TrimLeadingWs(s) == [] && IsWs(b) then [] else TrimLeadingWs(s) + [b]
    decreases |s|
  {
    if s == [] {
      assert s + [b] == [b];
      assert [b][1..] == [];
    } else {
      assert (s + [b])[0] == s[0];
      if IsWs(s[0]) {
        assert (s + [b])[1..] == s[1..] + [b];
        TrimLeadingWsSnoc(s[1..], b);
      }
    }
  }

  /** Removing ignorable bytes from a sequence extended by one byte. */
  lemma DropWsSnoc(s: Bytes, b: Byte)
    ensures DropWs(s + [b]) == DropWs(s) + (if IsWs(b) then [] else [b])
  {
    assert (s + [b])[..|s|] == s;
  }

  /** Removing `x` from a sequence extended by one byte. */
  lemma WithoutSnoc(s: Bytes, b: Byte, x: Byte)
    ensures Without(s + [b], x) == Without(s, x) + (if b == x then [] else [b])
  {
    assert (s + [b])[..|s|] == s;
  }

  /** The first `x` in a sequence extended by one byte. */
  lemma IndexOfSnoc(s: Bytes, b: Byte, x: Byte)
    ensures IndexOf(s + [b], x) ==
      if IndexOf(s, x) < |s| then IndexOf(s, x) else if b == x then |s| else |s| + 1
  {
    var k := IndexOf(s + [b], x);
    if IndexOf(s, x) < |s| {
      assert (s + [b])[IndexOf(s, x)] == x;
    } else if b == x {
      assert (s + [b])[|s|] == x;
    } else {
      assert forall i :: 0 <= i < |s| + 1 ==> (s + [b])[i] != x;
    }
  }
}
