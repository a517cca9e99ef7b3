/** The literal decoders of `lib/parser/literals.rs` and the specification of
    the assignment splitter. A decoder's only use of the parser is the index
    it stamps on an error, so here that index is the parameter `at`. */
module Literals {
  import opened Bytes
  import opened Errors
  import opened Values
  import Utf8

  // ---------------------------------------------------------------- strings

  /** `to_utf8`: the bytes themselves when they are well-formed UTF-8. */
  function ToUtf8(bytes: Bytes, at: nat): (r: Outcome<Bytes>)
    ensures r.Ok? <==> Utf8.WellFormed(bytes)
    ensures r.Ok? ==> r.value == bytes
    ensures !r.Ok? ==> r == Err(Error(WrongValue, at))
  {
    if Utf8.WellFormed(bytes) then Ok(bytes) else Err(Error(WrongValue, at))
  }

  /** `parse_string`. */
  function DecodeString(bytes: Bytes, at: nat): Outcome<Value> {
    var text :- ToUtf8(bytes, at);
    Ok(String(text))
  }

  /** `parse_string` accepts exactly the well-formed UTF-8 byte strings and
      keeps their bytes; anything else is `WrongValue` at the given index. */
  lemma DecodeStringSpec(bytes: Bytes, at: nat)
    ensures DecodeString(bytes, at).Ok? <==> Utf8.WellFormed(bytes)
    ensures DecodeString(bytes, at).Ok? ==> DecodeString(bytes, at).value == String(bytes)
    ensures !DecodeString(bytes, at).Ok? ==> DecodeString(bytes, at) == Err(Error(WrongValue, at))
  {
  }

  // --------------------------------------------------------------- unsigned

  predicate AllDigits(s: Bytes) {
    forall i :: 0 <= i < |s| ==> IsDigit(s[i])
  }

  /** What `parse_unsigned` computes: the digit sum when every byte is a digit. */
  function DecodeUnsigned(bytes: Bytes, at: nat): Outcome<Value> {
    if AllDigits(bytes) then Ok(Unsigned(DigitSum(bytes))) else Err(Error(WrongValue, at))
  }

  /** `parse_unsigned`: adds up digit values until the first non-digit. */
  method ParseUnsigned(bytes: Bytes, at: nat) returns (r: Outcome<Value>)
    ensures r == DecodeUnsigned(bytes, at)
  {
    var total := 0;
    for i := 0 to |bytes|
      invariant AllDigits(bytes[..i])
      invariant total == DigitSum(bytes[..i])
    {
      var b := bytes[i];
      if !IsDigit(b) {
        return Err(Error(WrongValue, at));
      }
      assert bytes[..i + 1][..i] == bytes[..i];
      total := total + DigitValue(b);
    }
    assert bytes[..|bytes|] == bytes;
    return Ok(Unsigned(total));
  }

  // ----------------------------------------------------------------- signed

  predicate SignedSymbols(s: Bytes) {
    forall i :: 0 <= i < |s| ==> IsDigit(s[i]) || s[i] == MINUS
  }

  /** What `parse_signed` computes: digits and at most one `-`, anywhere;
      the digit sum, negated when a `-` is present. */
  function DecodeSigned(bytes: Bytes, at: nat): Outcome<Value> {
    if SignedSymbols(bytes) && Count(bytes, MINUS) <= 1 then
      Ok(Signed(if Count(bytes, MINUS) == 1 then -(DigitSum(bytes) as int) else DigitSum(bytes)))
    else Err(Error(WrongValue, at))
  }

  /** `parse_signed`: the first `-` flips the sign and sets `in_number`,
      which only a later `-` consults. */
  method ParseSigned(bytes: Bytes, at: nat) returns (r: Outcome<Value>)
    ensures r == DecodeSigned(bytes, at)
  {
    var total: int := 0;
    var isNegative := false;
    var inNumber := false;
    for i := 0 to |bytes|
      invariant SignedSymbols(bytes[..i])
      invariant Count(bytes[..i], MINUS) <= 1
      invariant isNegative == inNumber == (Count(bytes[..i], MINUS) == 1)
      invariant total == DigitSum(bytes[..i])
    {
      var b := bytes[i];
      assert bytes[..i + 1][..i] == bytes[..i];
      if b == MINUS {
        if inNumber {
          CountPrefix(bytes, i + 1, MINUS);
          return Err(Error(WrongValue, at));
        }
        isNegative := !isNegative;
        inNumber := true;
        continue;
      }
      if !IsDigit(b) {
        return Err(Error(WrongValue, at));
      }
      total := total + DigitValue(b);
    }
    assert bytes[..|bytes|] == bytes;
    if isNegative {
      total := -total;
    }
    return Ok(Signed(total));
  }

  // ------------------------------------------------------------------ float

  predicate FloatSymbols(s: Bytes) {
    forall i :: 0 <= i < |s| ==> IsDigit(s[i]) || s[i] == MINUS || s[i] == DOT
  }

  /** Which byte strings `parse_float` accepts: digits, at most one `-` and at
      most one `.`, in any order. The value is kept as the literal itself. */
  function DecodeFloat(bytes: Bytes, at: nat): Outcome<Value> {
    if FloatSymbols(bytes) && Count(bytes, MINUS) <= 1 && Count(bytes, DOT) <= 1 then
      Ok(Float(bytes))
    else Err(Error(WrongValue, at))
  }

  /** `parse_float`, without its floating-point accumulation. */
  method ParseFloat(bytes: Bytes, at: nat) returns (r: Outcome<Value>)
    ensures r == DecodeFloat(bytes, at)
  {
    var inNumber := false;
    var inDec := false;
    for i := 0 to |bytes|
      invariant FloatSymbols(bytes[..i])
      invariant Count(bytes[..i], MINUS) <= 1 && Count(bytes[..i], DOT) <= 1
      invariant inNumber == (Count(bytes[..i], MINUS) == 1)
      invariant inDec == (Count(bytes[..i], DOT) == 1)
    {
      var b := bytes[i];
      assert bytes[..i + 1][..i] == bytes[..i];
      if b == MINUS {
        if inNumber {
          CountPrefix(bytes, i + 1, MINUS);
          return Err(Error(WrongValue, at));
        }
        inNumber := true;
        continue;
      } else if b == DOT {
        if inDec {
          CountPrefix(bytes, i + 1, DOT);
          return Err(Error(WrongValue, at));
        }
        inDec := true;
        continue;
      }
      if !IsDigit(b) {
        return Err(Error(WrongValue, at));
      }
    }
    assert bytes[..|bytes|] == bytes;
    return Ok(Float(bytes));
  }

  // ------------------------------------------------------------------- bool

  const TRUE: Bytes := [0x74, 0x72, 0x75, 0x65]          // "true"
  const FALSE: Bytes := [0x66, 0x61, 0x6C, 0x73, 0x65]   // "false"

  /** `parse_bool`. */
  function DecodeBool(bytes: Bytes, at: nat): (r: Outcome<Value>)
    ensures r.Ok? ==> r.value.Bool? && 1 <= |bytes| && r.value.b == (bytes[0] == TRUE[0])
    ensures !r.Ok? ==> r == Err(Error(WrongValue, at))
  {
    if bytes == TRUE || bytes == TRUE[..1] then Ok(Bool(true))
    else if bytes == FALSE || bytes == FALSE[..1] then Ok(Bool(false))
    else Err(Error(WrongValue, at))
  }

  /** The spelling of a boolean, long (`true`, `false`) or short (`t`, `f`). */
  function BoolSpelling(v: bool, short: bool): Bytes {
    var word := if v then TRUE else FALSE;
    if short then word[..1] else word
  }

  /** `parse_bool` accepts exactly the four spellings, and each decodes to the
      boolean it spells. */
  lemma BoolSpellings(bytes: Bytes, v: bool, short: bool, at: nat)
    ensures DecodeBool(BoolSpelling(v, short), at) == Ok(Bool(v))
    ensures DecodeBool(bytes, at).Ok? ==>
      bytes == BoolSpelling(DecodeBool(bytes, at).value.b, |bytes| == 1)
  {
    assert TRUE[..1] == [0x74] && FALSE[..1] == [0x66];
  }

  // ----------------------------------------------------- decoder properties

  /** Digits are summed, not weighted: "42" decodes to 6. */
  lemma UnsignedFortyTwo(at: nat)
    ensures DecodeUnsigned([0x34, 0x32], at) == Ok(Unsigned(6))
  {
    assert DigitSum([0x34, 0x32]) == DigitSum([0x34]) + DigitValue(0x32) by {
      assert [0x34, 0x32][..1] == [0x34 as Byte];
    }
    assert DigitSum([0x34]) == DigitSum([]) + DigitValue(0x34) by {
      var one: Bytes := [0x34];
      assert one[..0] == [];
    }
  }

  /** Reordering the digits never changes the unsigned value. */
  lemma UnsignedIgnoresOrder(a: Bytes, b: Bytes, at: nat)
    ensures DecodeUnsigned(a + b, at) == DecodeUnsigned(b + a, at)
  {
    DigitSumSwap(a, b);
    AllDigitsConcat(a, b);
    AllDigitsConcat(b, a);
  }

  lemma AllDigitsConcat(a: Bytes, b: Bytes)
    ensures AllDigits(a + b) <==> AllDigits(a) && AllDigits(b)
  {
    if AllDigits(a + b) {
      forall i | 0 <= i < |a| ensures IsDigit(a[i]) {
        assert a[i] == (a + b)[i];
      }
      forall i | 0 <= i < |b| ensures IsDigit(b[i]) {
        assert b[i] == (a + b)[|a| + i];
      }
    }
  }

  /** On digits alone, the signed decoder agrees with the unsigned one. */
  lemma SignedOfDigits(bytes: Bytes, at: nat)
    requires AllDigits(bytes)
    ensures DecodeSigned(bytes, at) == Ok(Signed(DecodeUnsigned(bytes, at).value.n))
  {
  }

  /** A single `-` anywhere among digits, even after them, negates their sum. */
  lemma {:induction false} SignedMinusAnywhere(a: Bytes, b: Bytes, at: nat)
    requires AllDigits(a) && AllDigits(b)
    ensures DecodeSigned(a + [MINUS] + b, at) == Ok(Signed(-(DigitSum(a + b) as int)))
  {
    var s := a + [MINUS] + b;
    CountAppend(a + [MINUS], b, MINUS);
    CountAppend(a, [MINUS], MINUS);
    assert Count([MINUS], MINUS) == 1 by {
      var one: Bytes := [MINUS];
      assert one[..0] == [];
    }
    assert SignedSymbols(s) by {
      forall i | 0 <= i < |s| ensures IsDigit(s[i]) || s[i] == MINUS {
        if i < |a| { assert s[i] == a[i]; }
        else if i > |a| { assert s[i] == b[i - |a| - 1]; }
      }
    }
    DigitSumAppend(a + [MINUS], b);
    DigitSumAppend(a, [MINUS]);
    DigitSumAppend(a, b);
    assert DigitSum([MINUS]) == 0 by {
      var one: Bytes := [MINUS];
      assert one[..0] == [];
    }
  }

  /** A second `-` is always rejected, wherever it stands; in particular the
      double negative `--5` fails. */
  lemma SignedRejectsTwoMinus(bytes: Bytes, i: nat, j: nat, at: nat)
    requires i < j < |bytes| && bytes[i] == MINUS && bytes[j] == MINUS
    ensures DecodeSigned(bytes, at) == Err(Error(WrongValue, at))
    ensures DecodeFloat(bytes, at) == Err(Error(WrongValue, at))
  {
    TwoOccurrences(bytes, i, j, MINUS);
  }

  /** Two occurrences make a count of at least two. */
  lemma TwoOccurrences(s: Bytes, i: nat, j: nat, x: Byte)
    requires i < j < |s| && s[i] == x && s[j] == x
    ensures Count(s, x) >= 2
  {
    assert s == s[..j] + s[j..];
    CountAppend(s[..j], s[j..], x);
    assert s[..j][i] == x;
    assert s[j..][0] == x;
  }

  /** Every literal the signed decoder accepts, the float decoder accepts too. */
  lemma SignedLiteralIsFloat(bytes: Bytes, at: nat)
    requires DecodeSigned(bytes, at).Ok?
    ensures DecodeFloat(bytes, at) == Ok(Float(bytes))
  {
  }

  // ------------------------------------------------------------- dispatch

  /** The decoder a scalar data type selects (`create_assign_parsers`). */
  function Decode(t: DataType, bytes: Bytes, at: nat): (r: Outcome<Value>)
    requires t.IsScalar()
    ensures !r.Panicked?
    ensures r.Err? ==> r.error == Error(WrongValue, at)
  {
    match t
    case StrType => DecodeString(bytes, at)
    case UintType => DecodeUnsigned(bytes, at)
    case SintType => DecodeSigned(bytes, at)
    case FloatType => DecodeFloat(bytes, at)
    case BoolType => DecodeBool(bytes, at)
  }

  /** A value the decoders produce: a scalar, a string of well-formed UTF-8,
      a float literal the float decoder accepts. */
  predicate Decoded(v: Value) {
    match v
    case String(text) => Utf8.WellFormed(text)
    case Float(literal) => DecodeFloat(literal, 0).Ok?
    case List(_) => false
    case Map(_) => false
    case _ => true
  }

  /** Every value a decoder returns is a scalar of its own data type. */
  lemma DecodeWellTyped(t: DataType, bytes: Bytes, at: nat)
    requires t.IsScalar() && Decode(t, bytes, at).Ok?
    ensures Decoded(Decode(t, bytes, at).value)
    ensures TypeRank(t) == ValueRank(Decode(t, bytes, at).value)
  {
  }

  /** Position of a value's variant among the data types. */
  function ValueRank(v: Value): nat {
    match v
    case String(_) => 0
    case Unsigned(_) => 1
    case Signed(_) => 2
    case Float(_) => 3
    case Bool(_) => 4
    case List(_) => 5
    case Map(_) => 6
  }

  // ----------------------------------------------------- assignment split

  /** The value bytes kept from the raw run after the first `=`: every further
      `=` is dropped, and so is the leading run of ignorable bytes. */
  function ValueBytes(run: Bytes): Bytes {
    TrimLeadingWs(Without(run, EQUALS))
  }

  /** What `parse_assign` does from index `start`: the outcome, and the
      parser's index afterwards (for an error, the index it records).
      The first `;` ends the assignment, the first `=` before it separates
      the identifier from the value; escaping plays no part. */
  function SplitAssign(input: Bytes, start: nat): (r: (Outcome<(Bytes, Bytes)>, int))
    requires 1 <= start <= |input|
    ensures !r.0.Panicked?
    ensures r.0.Err? ==> r.1 == r.0.error.index && start < r.1 <= |input|
    ensures r.0.Ok? ==> start - 1 <= r.1 < |input|
  {
    var rest := input[start..];
    var k := IndexOf(rest, SEMICOLON);
    var seg := rest[..k];
    var e := IndexOf(seg, EQUALS);
    if e < |seg| && DropWs(seg[..e]) == [] then
      (Err(Error(EmptyIdent, start + e + 1)), start + e + 1)
    else
      var st := Scanned(seg);
      if k == |rest| then (Ok((st.ident, st.data)), |input| - 1)
      else if st.ident == [] then (Err(Error(UnexpectedChar, start + k + 1)), start + k + 1)
      else if !st.inValue || st.data == [] then (Err(Error(WrongValue, start + k + 1)), start + k + 1)
      else (Ok((st.ident, st.data)), start + k)
  }

  /** The buffers `parse_assign` returns never hold `=` or `;`; the
      identifier holds no ignorable byte and the value does not start with
      one. */
  lemma SplitBuffersClean(input: Bytes, start: nat)
    requires 1 <= start <= |input| && SplitAssign(input, start).0.Ok?
    ensures var ident := SplitAssign(input, start).0.value.0;
      var data := SplitAssign(input, start).0.value.1;
      && EQUALS !in ident && SEMICOLON !in ident
      && (forall i :: 0 <= i < |ident| ==> !IsWs(ident[i]))
      && EQUALS !in data && SEMICOLON !in data
      && (data == [] || !IsWs(data[0]))
  {
    var rest := input[start..];
    var seg := rest[..IndexOf(rest, SEMICOLON)];
    var e := IndexOf(seg, EQUALS);
    assert SEMICOLON !in seg;
    assert EQUALS !in seg[..e];
  }

  /** An `*_assign` wrapper: split, then decode the value with the index the
      split left behind. */
  function TypedAssignSpec(t: DataType, input: Bytes, start: nat): (r: (Outcome<Assign>, int))
    requires t.IsScalar() && 1 <= start <= |input|
    ensures !r.0.Panicked?
    ensures r.0.Err? ==> r.1 == r.0.error.index && start - 1 <= r.1 <= |input|
    ensures r.0.Ok? ==> start - 1 <= r.1 < |input| && Decoded(r.0.value.value)
  {
    var split := SplitFrom(input, start, Scan([], [], false)).0;
    var end := SplitFrom(input, start, Scan([], [], false)).1;
    if !split.Ok? then (split.PropagateFailure(), end)
    else
      var v := Decode(t, split.value.1, end);
      if !v.Ok? then (v.PropagateFailure(), end)
      else
        DecodeWellTyped(t, split.value.1, end);
        (Ok(Assign(split.value.0, v.value)), end)
  }

  /** An `*_assign` parser that succeeds yields a value of its own type. */
  lemma TypedAssignWellTyped(t: DataType, input: Bytes, start: nat)
    requires t.IsScalar() && 1 <= start <= |input|
    ensures TypedAssignSpec(t, input, start).0.Ok? ==>
      ValueRank(TypedAssignSpec(t, input, start).0.value.value) == TypeRank(t)
  {
    var split := SplitFrom(input, start, Scan([], [], false));
    if split.0.Ok? && Decode(t, split.0.value.1, split.1).Ok? {
      DecodeWellTyped(t, split.0.value.1, split.1);
    }
  }

  /** The kept value bytes of a raw run extended by one byte: `=` is never
      kept, an ignorable byte only once some value byte is. */
  lemma ValueBytesSnoc(run: Bytes, b: Byte)
    ensures ValueBytes(run + [b]) ==
      if b == EQUALS || (ValueBytes(run) == [] && IsWs(b)) then ValueBytes(run)
      else ValueBytes(run) + [b]
  {
    WithoutSnoc(run, b, EQUALS);
    if b != EQUALS {
      TrimLeadingWsSnoc(Without(run, EQUALS), b);
    } else {
      assert Without(run + [b], EQUALS) == Without(run, EQUALS);
    }
  }

  /** The buffers `parse_assign` holds after scanning some bytes: the
      identifier, the value, and whether a `=` was seen (`in_value`). */
  datatype Scan = Scan(ident: Bytes, data: Bytes, inValue: bool)

  /** The scan state after `seen` (which holds no `;`). */
  function Scanned(seen: Bytes): Scan {
    var e := IndexOf(seen, EQUALS);
    Scan(DropWs(seen[..e]), if e < |seen| then ValueBytes(seen[e + 1..]) else [], e < |seen|)
  }

  /** One step of the scan: what the loop body of `parse_assign` does with
      the next byte `b`, when that byte neither ends the assignment nor is
      rejected. */
  function Step(st: Scan, b: Byte): Scan {
    if b == EQUALS then st.(inValue := true)
    else if IsWs(b) && (!st.inValue || st.data == []) then st
    else if st.inValue then st.(data := st.data + [b])
    else st.(ident := st.ident + [b])
  }

  /** The loop of `parse_assign` seen from index `i`, with the scan state
      `st` held so far: the byte at `i` is the next one read. */
  function SplitFrom(input: Bytes, i: nat, st: Scan): (r: (Outcome<(Bytes, Bytes)>, int))
    requires 1 <= i <= |input|
    ensures !r.0.Panicked?
    ensures r.0.Err? ==> r.1 == r.0.error.index && i < r.1 <= |input|
    ensures r.0.Ok? ==> i - 1 <= r.1 < |input|
    decreases |input| - i
  {
    if i == |input| then (Ok((st.ident, st.data)), |input| - 1)
    else if input[i] == EQUALS && st.ident == [] then (Err(Error(EmptyIdent, i + 1)), i + 1)
    else if input[i] == SEMICOLON then
      if st.ident == [] then (Err(Error(UnexpectedChar, i + 1)), i + 1)
      else if !st.inValue || st.data == [] then (Err(Error(WrongValue, i + 1)), i + 1)
      else (Ok((st.ident, st.data)), i)
    else SplitFrom(input, i + 1, Step(st, input[i]))
  }

  /** The scan state after one more byte is the step applied to it. */
  lemma ScannedSnoc(seen: Bytes, b: Byte)
    requires !(b == EQUALS && Scanned(seen).ident == [])
    ensures Scanned(seen + [b]) == Step(Scanned(seen), b)
  {
    var e := IndexOf(seen, EQUALS);
    IndexOfSnoc(seen, b, EQUALS);
    if e < |seen| {
      assert (seen + [b])[..e] == seen[..e];
      assert (seen + [b])[e + 1..] == seen[e + 1..] + [b];
      ValueBytesSnoc(seen[e + 1..], b);
    } else if b == EQUALS {
      assert seen[..|seen|] == seen;
      assert (seen + [b])[..|seen|] == seen;
      assert (seen + [b])[|seen| + 1..] == [];
      assert ValueBytes([]) == [];
    } else {
      assert seen[..|seen|] == seen;
      assert (seen + [b])[..|seen| + 1] == seen + [b];
      DropWsSnoc(seen, b);
    }
  }

  /** The loop of `parse_assign` computes the split: run from `start` with
      empty buffers, it ends exactly as `SplitAssign` says. */
  lemma SplitFromStart(input: Bytes, start: nat)
    requires 1 <= start <= |input|
    ensures SplitFrom(input, start, Scan([], [], false)) == SplitAssign(input, start)
  {
    assert input[start..start] == [];
    assert Scanned([]) == Scan([], [], false);
    SplitFromScanned(input, start, start);
  }

  /** The induction behind `SplitFromStart`: from any index `i` reached
      without meeting `;` or a rejected `=`, the rest of the loop finishes
      the split. */
  lemma {:induction false} SplitFromScanned(input: Bytes, start: nat, i: nat)
    requires 1 <= start <= i <= |input|
    requires SEMICOLON !in input[start..i]
    requires Scanned(input[start..i]).inValue ==> Scanned(input[start..i]).ident != []
    ensures SplitFrom(input, i, Scanned(input[start..i])) == SplitAssign(input, start)
    decreases |input| - i
  {
    if i == |input| {
      assert input[start..i] == input[start..];
      SplitAtEnd(input, start);
    } else if input[i] == EQUALS && Scanned(input[start..i]).ident == [] {
      SplitAtEquals(input, start, i);
    } else if input[i] == SEMICOLON {
      SplitAtSemicolon(input, start, i);
    } else {
      SplitFromStep(input, start, i);
      SplitFromScanned(input, start, i + 1);
    }
  }

  /** A byte that neither ends the assignment nor is rejected moves the loop
      one index on, with the scan state of the longer prefix. */
  lemma SplitFromStep(input: Bytes, start: nat, i: nat)
    requires 1 <= start <= i < |input|
    requires input[i] != SEMICOLON && !(input[i] == EQUALS && Scanned(input[start..i]).ident == [])
    ensures SplitFrom(input, i, Scanned(input[start..i])) == SplitFrom(input, i + 1, Scanned(input[start..i + 1]))
    ensures SEMICOLON !in input[start..i] ==> SEMICOLON !in input[start..i + 1]
    ensures (Scanned(input[start..i]).inValue ==> Scanned(input[start..i]).ident != []) ==>
      (Scanned(input[start..i + 1]).inValue ==> Scanned(input[start..i + 1]).ident != [])
  {
    assert input[start..i + 1] == input[start..i] + [input[i]];
    ScannedSnoc(input[start..i], input[i]);
  }

  /** The split when the scan meets a `=` before any identifier byte. */
  lemma SplitAtEquals(input: Bytes, start: nat, i: nat)
    requires 1 <= start <= i < |input| && input[i] == EQUALS
    requires SEMICOLON !in input[start..i]
    requires !Scanned(input[start..i]).inValue && Scanned(input[start..i]).ident == []
    ensures SplitAssign(input, start) == (Err(Error(EmptyIdent, i + 1)), i + 1)
  {
    var rest := input[start..];
    var seen := input[start..i];
    assert rest[i - start] == EQUALS;
    assert seen == rest[..i - start];
    var k := IndexOf(rest, SEMICOLON);
    assert i - start < k;
    var seg := rest[..k];
    assert seg[..i - start] == seen;
    assert seen[..|seen|] == seen;
    assert IndexOf(seg, EQUALS) == i - start;
  }

  /** The split when the scan meets the first `;` at `i`. */
  lemma SplitAtSemicolon(input: Bytes, start: nat, i: nat)
    requires 1 <= start <= i < |input| && input[i] == SEMICOLON
    requires SEMICOLON !in input[start..i]
    requires Scanned(input[start..i]).inValue ==> Scanned(input[start..i]).ident != []
    ensures SplitAssign(input, start) ==
      var st := Scanned(input[start..i]);
      if st.ident == [] then (Err(Error(UnexpectedChar, i + 1)), i + 1)
      else if !st.inValue || st.data == [] then (Err(Error(WrongValue, i + 1)), i + 1)
      else (Ok((st.ident, st.data)), i)
  {
    var rest := input[start..];
    var seen := input[start..i];
    assert rest[i - start] == SEMICOLON;
    assert rest[..i - start] == seen;
    var k := IndexOf(rest, SEMICOLON);
    assert k == i - start;
    var seg := rest[..k];
    assert seg == seen;
    var e := IndexOf(seg, EQUALS);
    assert e < |seg| ==> DropWs(seg[..e]) != [];
    assert start + k == i;
  }

  /** The split when the input ends before any `;`. */
  lemma SplitAtEnd(input: Bytes, start: nat)
    requires 1 <= start <= |input|
    requires SEMICOLON !in input[start..]
    requires Scanned(input[start..]).inValue ==> Scanned(input[start..]).ident != []
    ensures SplitAssign(input, start) ==
      (Ok((Scanned(input[start..]).ident, Scanned(input[start..]).data)), |input| - 1)
  {
    var rest := input[start..];
    assert IndexOf(rest, SEMICOLON) == |rest|;
    assert rest[..|rest|] == rest;
  }
}
