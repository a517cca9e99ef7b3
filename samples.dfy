/** Worked messages: what `parse` returns for a few concrete inputs. */
module Samples {
  import opened Bytes
  import opened Errors
  import opened Values
  import opened Literals
  import opened Parser

  /** A one-byte tag followed by `@` at `from`: the dispatch happens with
      the index just past the `@`. */
  lemma ShortTagAt(input: Bytes, from: nat, t: DataType)
    requires from + 1 < |input| && input[from] == ShortTag(t)[0] && input[from + 1] == AT
    ensures AssignStartSpec(input, from) == Dispatch(Some(t), input, from + 2)
  {
    var rest := input[from..];
    assert rest[0] == input[from] && rest[1] == AT;
    assert IndexOf(rest, AT) == 1;
    assert rest[..1] == ShortTag(t);
    assert Tag(input, from) == ShortTag(t) && TagEnd(input, from) == from + 2;
    TypeOfSpellings(t);
  }

  /** An unsigned tag whose split yields only digits: the assignment holds
      their digit sum, and the index stays where the split left it. */
  lemma UnsignedDispatch(input: Bytes, after: nat, ident: Bytes, digits: Bytes, end: nat)
    requires 1 <= after <= |input|
    requires SplitFrom(input, after, Scan([], [], false)) == (Ok((ident, digits)), end)
    requires AllDigits(digits)
    ensures Dispatch(Some(UintType), input, after) == (Ok(Assign(ident, Unsigned(DigitSum(digits)))), end)
  {
  }

  /** A scalar tag whose split succeeds but whose value its decoder
      rejects: the error stands at the index the split left. */
  lemma DispatchRejected(t: DataType, input: Bytes, after: nat, ident: Bytes, bytes: Bytes, end: nat)
    requires t.IsScalar() && 1 <= after <= |input|
    requires SplitFrom(input, after, Scan([], [], false)) == (Ok((ident, bytes)), end)
    requires Decode(t, bytes, end).Err?
    ensures Dispatch(Some(t), input, after) == (Err(Error(WrongValue, end)), end)
  {
  }

  /** At a byte that starts a tag the loop hands over to the assignment:
      on success it inserts the entry and resumes past the index the
      assignment left, otherwise the loop ends with the same failure. */
  lemma RunAtAssign(input: Bytes, i: nat, body: map<Bytes, Value>)
    requires i < |input| && IsTypeStart(input[i])
    ensures Run(input, i, body) == RunAssign(input, i, body)
    ensures var step := AssignStartSpec(input, i);
      RunAssign(input, i, body) ==
        if step.0.Ok? then Run(input, step.1 + 1, body[step.0.value.ident := step.0.value.value])
        else step.0.PropagateFailure()
  {
  }

  const AGE_MESSAGE: Bytes := [0x75, 0x40, 0x61, 0x67, 0x65, 0x3D, 0x34, 0x32, 0x3B]  // u@age=42;
  const AGE: Bytes := [0x61, 0x67, 0x65]   // age
  const DIGITS: Bytes := [0x34, 0x32]      // 42

  /** The splitter on `age=42;` stops at the `;` (index 8). */
  lemma AgeSplit()
    ensures SplitFrom(AGE_MESSAGE, 2, Scan([], [], false)) == (Ok((AGE, DIGITS)), 8)
  {
    var input := AGE_MESSAGE;
    var done := (Ok((AGE, DIGITS)), 8);
    assert [0x34] + [0x32] == DIGITS;
    assert [0x61] + [0x67] == [0x61, 0x67];
    assert [0x61, 0x67] + [0x65] == AGE;
    assert SplitFrom(input, 8, Scan(AGE, DIGITS, true)) == done;
    assert Step(Scan(AGE, [0x34], true), input[7]) == Scan(AGE, DIGITS, true);
    assert SplitFrom(input, 7, Scan(AGE, [0x34], true)) == done;
    assert Step(Scan(AGE, [], true), input[6]) == Scan(AGE, [0x34], true);
    assert SplitFrom(input, 6, Scan(AGE, [], true)) == done;
    assert SplitFrom(input, 5, Scan(AGE, [], false)) == done;
    assert Step(Scan([0x61, 0x67], [], false), input[4]) == Scan(AGE, [], false);
    assert SplitFrom(input, 4, Scan([0x61, 0x67], [], false)) == done;
    assert Step(Scan([0x61], [], false), input[3]) == Scan([0x61, 0x67], [], false);
    assert SplitFrom(input, 3, Scan([0x61], [], false)) == done;
    assert Step(Scan([], [], false), input[2]) == Scan([0x61], [], false);
  }

  /** The assignment `u@age=42;` reads the tag `u` and decodes `42` as the
      digit sum 6. */
  lemma AgeAssign()
    ensures AssignStartSpec(AGE_MESSAGE, 0) == (Ok(Assign(AGE, Unsigned(6))), 8)
  {
    ShortTagAt(AGE_MESSAGE, 0, UintType);
    AgeSplit();
    UnsignedDispatch(AGE_MESSAGE, 2, AGE, DIGITS, 8);
    assert DigitSum(DIGITS) == 6;
  }

  /** `u@age=42;` parses to `age` holding 6: the digits are added, not read
      positionally. */
  lemma UnsignedAssignment()
    ensures ParseSpec(AGE_MESSAGE) == Ok(Message(map[AGE := Unsigned(6)]))
  {
    AgeAssign();
    RunAtAssign(AGE_MESSAGE, 0, map[]);
  }

  const DOUBLE_MINUS: Bytes := [0x69, 0x40, 0x78, 0x3D, 0x2D, 0x2D, 0x35, 0x3B]  // i@x=--5;
  const X: Bytes := [0x78]                 // x
  const MINUS_MINUS_FIVE: Bytes := [0x2D, 0x2D, 0x35]  // --5

  /** The splitter on `x=--5;` keeps both `-` and stops at the `;`. */
  lemma DoubleMinusSplit()
    ensures SplitFrom(DOUBLE_MINUS, 2, Scan([], [], false)) == (Ok((X, MINUS_MINUS_FIVE)), 7)
  {
    var input := DOUBLE_MINUS;
    var done := (Ok((X, MINUS_MINUS_FIVE)), 7);
    assert [0x2D] + [0x2D] == [0x2D, 0x2D];
    assert [0x2D, 0x2D] + [0x35] == MINUS_MINUS_FIVE;
    assert SplitFrom(input, 7, Scan(X, MINUS_MINUS_FIVE, true)) == done;
    assert Step(Scan(X, [0x2D, 0x2D], true), input[6]) == Scan(X, MINUS_MINUS_FIVE, true);
    assert SplitFrom(input, 6, Scan(X, [0x2D, 0x2D], true)) == done;
    assert Step(Scan(X, [0x2D], true), input[5]) == Scan(X, [0x2D, 0x2D], true);
    assert SplitFrom(input, 5, Scan(X, [0x2D], true)) == done;
    assert Step(Scan(X, [], true), input[4]) == Scan(X, [0x2D], true);
    assert SplitFrom(input, 4, Scan(X, [], true)) == done;
    assert SplitFrom(input, 3, Scan(X, [], false)) == done;
    assert Step(Scan([], [], false), input[2]) == Scan(X, [], false);
  }

  /** The assignment `i@x=--5;` fails in the signed decoder. */
  lemma DoubleMinusAssign()
    ensures AssignStartSpec(DOUBLE_MINUS, 0) == (Err(Error(WrongValue, 7)), 7)
  {
    ShortTagAt(DOUBLE_MINUS, 0, SintType);
    DoubleMinusSplit();
    SignedRejectsTwoMinus(MINUS_MINUS_FIVE, 0, 1, 7);
    DispatchRejected(SintType, DOUBLE_MINUS, 2, X, MINUS_MINUS_FIVE, 7);
  }

  /** `i@x=--5;`: the second `-` is rejected, with the index the split left
      on the `;`. */
  lemma DoubleMinusRejected()
    ensures ParseSpec(DOUBLE_MINUS) == Err(Error(WrongValue, 7))
  {
    DoubleMinusAssign();
    RunAtAssign(DOUBLE_MINUS, 0, map[]);
  }

  const TWICE: Bytes := [0x75, 0x40, 0x61, 0x3D, 0x31, 0x3B, 0x75, 0x40, 0x61, 0x3D, 0x32, 0x3B]  // u@a=1;u@a=2;
  const A: Bytes := [0x61]  // a

  /** The splitter on the first assignment of `u@a=1;u@a=2;`. */
  lemma TwiceFirstSplit()
    ensures SplitFrom(TWICE, 2, Scan([], [], false)) == (Ok((A, [0x31])), 5)
  {
    var input := TWICE;
    var done := (Ok((A, [0x31])), 5);
    assert SplitFrom(input, 5, Scan(A, [0x31], true)) == done;
    assert Step(Scan(A, [], true), input[4]) == Scan(A, [0x31], true);
    assert SplitFrom(input, 4, Scan(A, [], true)) == done;
    assert SplitFrom(input, 3, Scan(A, [], false)) == done;
    assert Step(Scan([], [], false), input[2]) == Scan(A, [], false);
  }

  /** The splitter on the second assignment of `u@a=1;u@a=2;`. */
  lemma TwiceSecondSplit()
    ensures SplitFrom(TWICE, 8, Scan([], [], false)) == (Ok((A, [0x32])), 11)
  {
    var input := TWICE;
    var done := (Ok((A, [0x32])), 11);
    assert SplitFrom(input, 11, Scan(A, [0x32], true)) == done;
    assert Step(Scan(A, [], true), input[10]) == Scan(A, [0x32], true);
    assert SplitFrom(input, 10, Scan(A, [], true)) == done;
    assert SplitFrom(input, 9, Scan(A, [], false)) == done;
    assert Step(Scan([], [], false), input[8]) == Scan(A, [], false);
  }

  /** The first assignment of `u@a=1;u@a=2;` gives `a` the value 1. */
  lemma TwiceFirstAssign()
    ensures AssignStartSpec(TWICE, 0) == (Ok(Assign(A, Unsigned(1))), 5)
  {
    ShortTagAt(TWICE, 0, UintType);
    TwiceFirstSplit();
    UnsignedDispatch(TWICE, 2, A, [0x31], 5);
    assert DigitSum([0x31]) == 1;
  }

  /** The second assignment of `u@a=1;u@a=2;` gives `a` the value 2. */
  lemma TwiceSecondAssign()
    ensures AssignStartSpec(TWICE, 6) == (Ok(Assign(A, Unsigned(2))), 11)
  {
    ShortTagAt(TWICE, 6, UintType);
    TwiceSecondSplit();
    UnsignedDispatch(TWICE, 8, A, [0x32], 11);
    assert DigitSum([0x32]) == 2;
  }

  /** The loop after the first assignment of `u@a=1;u@a=2;`. */
  lemma TwiceTail()
    ensures Run(TWICE, 6, map[A := Unsigned(1)]) == Ok(Message(map[A := Unsigned(2)]))
  {
    var one := map[A := Unsigned(1)];
    var two := map[A := Unsigned(2)];
    TwiceSecondAssign();
    assert one[A := Unsigned(2)] == two;
    assert RunAssign(TWICE, 6, one) == Run(TWICE, 12, two);
    RunAtAssign(TWICE, 6, one);
  }

  /** `u@a=1;u@a=2;`: the later assignment to `a` replaces the earlier. */
  lemma LastWriteWins()
    ensures ParseSpec(TWICE) == Ok(Message(map[A := Unsigned(2)]))
  {
    TwiceFirstAssign();
    TwiceTail();
    RunAtAssign(TWICE, 0, map[]);
  }

  const LIST_TAG: Bytes := [0x6C, 0x40, 0x78, 0x3D, 0x31, 0x3B]  // l@x=1;

  /** `l@x=1;`: a list tag reaches the unimplemented branch right after
      the `@`. */
  lemma ListUnimplemented()
    ensures ParseSpec(LIST_TAG) == Panicked(Unimplemented(2))
  {
    ShortTagAt(LIST_TAG, 0, ListType);
    RunAtAssign(LIST_TAG, 0, map[]);
  }

  const COMMENTED: Bytes := [0x23, 0x78, 0x23, 0x75, 0x40, 0x78]  // #x#u@x

  /** The assignment `u@x` that ends the input: neither `=` nor `;`, and
      still `x` holding 0. */
  lemma OpenAssign()
    ensures AssignStartSpec(COMMENTED, 3) == (Ok(Assign(X, Unsigned(0))), 5)
  {
    var input := COMMENTED;
    ShortTagAt(input, 3, UintType);
    assert Step(Scan([], [], false), input[5]) == Scan(X, [], false);
    assert SplitFrom(input, 6, Scan(X, [], false)) == (Ok((X, [])), 5);
    assert SplitFrom(input, 5, Scan([], [], false)) == (Ok((X, [])), 5);
  }

  /** `#x#u@x`: the comment is skipped and the open assignment at the end
      is kept. */
  lemma CommentThenOpenAssignment()
    ensures ParseSpec(COMMENTED) == Ok(Message(map[X := Unsigned(0)]))
  {
    var input := COMMENTED;
    assert CommentClose(input, 1) == Some(2);
    OpenAssign();
    RunAtAssign(input, 3, map[]);
  }

  const NOT_A_TAG: Bytes := [0x78]  // x

  /** A top-level byte that starts no tag is rejected where it stands. */
  lemma UnknownTopLevelByte()
    ensures ParseSpec(NOT_A_TAG) == Err(Error(UnexpectedChar, 0))
  {
  }
}
