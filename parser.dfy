/** The parser of `lib/parser/mod.rs`: a cursor over an immutable byte
    buffer, the type-tag dispatcher, the assignment splitter of
    `lib/parser/literals.rs`, and the top-level message loop. */
module Parser {
  import opened Bytes
  import opened Errors
  import opened Values
  import opened Literals

  /** Whether a byte begins a type tag at the top level. */
  predicate IsTypeStart(b: Byte) {
    b in DATA_TYPE_START_BYTES
  }

  /** Whether the `#` at `j` closes a comment: its preceding byte is not a
      backslash. */
  predicate ClosesComment(input: Bytes, j: nat)
    requires 1 <= j < |input|
  {
    input[j] == HASH && input[j - 1] != BACKSLASH
  }

  /** Where a comment scan starting at `from` stops: the first closing `#`
      at or after `from`, or `None` when there is none. */
  function CommentClose(input: Bytes, from: nat): (r: Option<nat>)
    requires 1 <= from
    ensures r.Some? ==> from <= r.value < |input| && ClosesComment(input, r.value)
    ensures r.Some? ==> forall j :: from <= j < r.value ==> !ClosesComment(input, j)
    ensures r.None? ==> forall j :: from <= j < |input| ==> !ClosesComment(input, j)
    decreases |input| - from
  {
    if from >= |input| then None
    else if ClosesComment(input, from) then Some(from)
    else CommentClose(input, from + 1)
  }

  /** What the dispatch of `parse_assign_start` does once the tag has been
      read and the index stands at `after`: the decoder of a scalar type,
      an abort for list and map, an error for any other tag. */
  function Dispatch(t: Option<DataType>, input: Bytes, after: nat): (r: (Outcome<Assign>, int))
    requires 1 <= after <= |input|
    ensures r.0.Ok? ==> after - 1 <= r.1 < |input| && Decoded(r.0.value.value)
    ensures r.0.Err? ==> after - 1 <= r.1 == r.0.error.index <= |input|
    ensures r.0.Panicked? ==> r.1 == after && r.0.panic == Unimplemented(after)
  {
    match t
    case None => (Err(Error(UnexpectedChar, after)), after)
    case Some(t) =>
      if t.IsScalar() then TypedAssignSpec(t, input, after)
      else (Panicked(Unimplemented(after)), after)
  }

  /** The three ways a dispatch ends: an unknown tag is an error at the
      index past the tag, a list or map tag aborts there, and success comes
      only from a scalar tag, with a value of that very type. */
  lemma DispatchByTag(t: Option<DataType>, input: Bytes, after: nat)
    requires 1 <= after <= |input|
    ensures t.None? ==> Dispatch(t, input, after).0 == Err(Error(UnexpectedChar, after))
    ensures t.Some? && !t.value.IsScalar() ==> Dispatch(t, input, after).0 == Panicked(Unimplemented(after))
    ensures Dispatch(t, input, after).0.Ok? ==>
      t.Some? && t.value.IsScalar() && ValueRank(Dispatch(t, input, after).0.value.value) == TypeRank(t.value)
  {
    if t.Some? && t.value.IsScalar() {
      TypedAssignWellTyped(t.value, input, after);
    }
  }

  /** The type tag read by `parse_assign_start` from index `start`: every
      byte before the first `@`, ignorable bytes dropped. */
  function Tag(input: Bytes, start: nat): (tag: Bytes)
    requires start <= |input|
    ensures AT !in tag
  {
    var rest := input[start..];
    DropWs(rest[..IndexOf(rest, AT)])
  }

  /** Where the index stands once the tag is read: past the first `@`, or
      at the end of the input when there is none. */
  function TagEnd(input: Bytes, start: nat): (e: nat)
    requires start < |input|
    ensures start < e <= |input|
    ensures e < |input| ==> input[e - 1] == AT
  {
    var rest := input[start..];
    var a := IndexOf(rest, AT);
    if a < |rest| then start + a + 1 else |input|
  }

  /** The tag when the input ends before any `@`. */
  lemma TagAtEnd(input: Bytes, start: nat)
    requires start < |input| && AT !in input[start..|input|]
    ensures Tag(input, start) == DropWs(input[start..|input|]) && TagEnd(input, start) == |input|
  {
    var rest := input[start..];
    assert rest == input[start..|input|];
    assert rest[..IndexOf(rest, AT)] == rest;
  }

  /** The tag when the first `@` is at `i`. */
  lemma TagAtSign(input: Bytes, start: nat, i: nat)
    requires start <= i < |input| && input[i] == AT && AT !in input[start..i]
    ensures Tag(input, start) == DropWs(input[start..i]) && TagEnd(input, start) == i + 1
  {
    var rest := input[start..];
    assert rest[..i - start] == input[start..i];
    assert rest[i - start] == AT;
    assert IndexOf(rest, AT) == i - start;
  }

  /** The tag loop from index `i`, with the tag `acc` gathered so far: the
      tag and the index where the loop stops. */
  function TagFrom(input: Bytes, i: nat, acc: Bytes): (r: (Bytes, nat))
    requires i <= |input|
    decreases |input| - i
  {
    if i == |input| then (acc, |input|)
    else if input[i] == AT then (acc, i + 1)
    else TagFrom(input, i + 1, if IsWs(input[i]) then acc else acc + [input[i]])
  }

  /** The byte-at-a-time tag loop agrees with `Tag` and `TagEnd` from any
      point before the first `@`. */
  lemma {:induction false} TagFromSeen(input: Bytes, start: nat, i: nat)
    requires start <= i <= |input| && start < |input| && AT !in input[start..i]
    ensures TagFrom(input, i, DropWs(input[start..i])) == (Tag(input, start), TagEnd(input, start))
    decreases |input| - i
  {
    if i == |input| {
      TagAtEnd(input, start);
    } else if input[i] == AT {
      TagAtSign(input, start, i);
    } else {
      TagFromStep(input, start, i);
      TagFromSeen(input, start, i + 1);
    }
  }

  /** One byte other than `@`: the loop goes on with that byte seen. */
  lemma TagFromStep(input: Bytes, start: nat, i: nat)
    requires start <= i < |input| && input[i] != AT && AT !in input[start..i]
    ensures AT !in input[start..i + 1]
    ensures TagFrom(input, i, DropWs(input[start..i])) == TagFrom(input, i + 1, DropWs(input[start..i + 1]))
  {
    var seen := input[start..i];
    assert input[start..i + 1] == seen + [input[i]];
    DropWsSnoc(seen, input[i]);
    var acc := DropWs(seen);
    assert TagFrom(input, i, acc) == TagFrom(input, i + 1, if IsWs(input[i]) then acc else acc + [input[i]]);
    if IsWs(input[i]) {
      assert DropWs(input[start..i + 1]) == acc;
    } else {
      assert DropWs(input[start..i + 1]) == acc + [input[i]];
    }
  }

  /** `parse_assign_start` from index `start`: the tag, then the dispatch
      with the index past the `@`. */
  function AssignStartSpec(input: Bytes, start: nat): (r: (Outcome<Assign>, int))
    requires start < |input|
    ensures r.0.Ok? ==> start <= r.1 < |input| && Decoded(r.0.value.value)
    ensures r.0.Err? ==> start <= r.1 == r.0.error.index <= |input|
    ensures r.0.Panicked? ==> start < r.1 <= |input| && r.0.panic == Unimplemented(r.1)
  {
    Dispatch(TypeOf(Tag(input, start)), input, TagEnd(input, start))
  }

  /** The message loop of `Parser::parse` from index `i`, with the entries
      `body` gathered so far. */
  function Run(input: Bytes, i: nat, body: map<Bytes, Value>): Outcome<Message>
    decreases |input| - i, 1
  {
    if i >= |input| then Ok(Message(body))
    else if input[i] == NUL then Ok(Message(body))
    else if IsWs(input[i]) then Run(input, i + 1, body)
    else if input[i] == HASH then
      match CommentClose(input, i + 1)
      case None => Panicked(IndexOutOfBounds(|input|))
      case Some(j) => Run(input, j + 1, body)
    else if IsTypeStart(input[i]) then RunAssign(input, i, body)
    else Err(Error(UnexpectedChar, i))
  }

  /** The message loop once an assignment starts at `i`: the entry is
      inserted (replacing any earlier one with the same identifier) and the
      loop goes on past the index the assignment left. */
  function RunAssign(input: Bytes, i: nat, body: map<Bytes, Value>): Outcome<Message>
    requires i < |input|
    decreases |input| - i, 0
  {
    var step := AssignStartSpec(input, i);
    if step.0.Ok? then
      Run(input, step.1 + 1, body[step.0.value.ident := step.0.value.value])
    else step.0.PropagateFailure()
  }

  /** `Parser::parse` on a fresh parser. */
  function ParseSpec(input: Bytes): Outcome<Message> {
    if input == [] then Ok(Message(map[])) else Run(input, 0, map[])
  }

  class Parser {
    const input: Bytes
    var index: nat

    /** `Parser::new`. */
    constructor (input: Bytes)
      ensures this.input == input && index == 0
    {
      this.input := input;
      index := 0;
    }

    /** `error`: an error of the given kind at the current index. */
    function MakeError(kind: ErrorKind): (e: Error)
      reads this
      ensures e.kind == kind && e.index == index
    {
      Error(kind, index)
    }

    /** `maybe_escaped`: `current` is `expected` and the byte before the index
        is not a backslash. Right after `Next` that byte is `current` itself,
        so for any delimiter other than the backslash the test is plain
        equality and escaping has no effect. */
    function MaybeEscaped(current: Byte, expected: Byte): (r: bool)
      reads this
      requires index <= |input|
      ensures r ==> current == expected && 0 < index
      ensures 0 < index && input[index - 1] == BACKSLASH ==> !r
      ensures 0 < index && current == input[index - 1] && expected != BACKSLASH ==>
        (r <==> current == expected)
    {
      current == expected && index > 0 && input[index - 1] != BACKSLASH
    }

    /** `Iterator::next`: the byte at the index, advancing it by one. */
    method Next() returns (b: Option<Byte>)
      modifies this
      ensures old(index) < |input| ==> b == Some(input[old(index)]) && index == old(index) + 1
      ensures old(index) >= |input| ==> b == None && index == old(index)
    {
      if index >= |input| {
        return None;
      }
      index := index + 1;
      return Some(input[index - 1]);
    }

    /** `parse_assign`: splits `ident=value;` into its two buffers and leaves
        the index on the `;` (or on the last byte when the input ends). */
    method ParseAssign() returns (r: Outcome<(Bytes, Bytes)>)
      requires 1 <= index <= |input|
      modifies this
      ensures r == SplitFrom(input, old(index), Scan([], [], false)).0
      ensures index == SplitFrom(input, old(index), Scan([], [], false)).1
    {
      ghost var start := index;
      var data: Bytes := [];
      var ident: Bytes := [];
      var inValue := false;
      while true
        invariant 1 <= index <= |input|
        invariant SplitFrom(input, index, Scan(ident, data, inValue)) == SplitFrom(input, start, Scan([], [], false))
        decreases |input| - index
      {
        ghost var st := Scan(ident, data, inValue);
        var next := Next();
        if next.None? {
          break;
        }
        var b := next.value;
        if MaybeEscaped(b, EQUALS) {
          if ident == [] {
            return Err(MakeError(EmptyIdent));
          }
          inValue := true;
          continue;
        } else if MaybeEscaped(b, SEMICOLON) {
          if ident == [] {
            return Err(MakeError(UnexpectedChar));
          } else if !inValue || data == [] {
            return Err(MakeError(WrongValue));
          }
          break;
        } else if IsWs(b) && (!inValue || data == []) {
          continue;
        }
        if inValue {
          data := data + [b];
        } else {
          ident := ident + [b];
        }
        assert Scan(ident, data, inValue) == Step(st, b);
      }
      index := index - 1;  // the correction after the loop
      r := Ok((ident, data));
    }

    /** One of the `*_assign` parsers of `create_assign_parsers`: split, then
        decode the value with the decoder of type `t`. */
    method TypedAssign(t: DataType) returns (r: Outcome<Assign>)
      requires t.IsScalar() && 1 <= index <= |input|
      modifies this
      ensures r == TypedAssignSpec(t, input, old(index)).0
      ensures index == TypedAssignSpec(t, input, old(index)).1
    {
      var split :- ParseAssign();
      var (ident, bytes) := split;
      var value: Outcome<Value>;
      if t == StrType {
        value := DecodeString(bytes, index);
      } else if t == UintType {
        value := ParseUnsigned(bytes, index);
      } else if t == SintType {
        value := ParseSigned(bytes, index);
      } else if t == FloatType {
        value := ParseFloat(bytes, index);
      } else {
        value := DecodeBool(bytes, index);
      }
      var v :- value;
      return Ok(Assign(ident, v));
    }

    /** The tag loop of `parse_assign_start`: gathers the non-ignorable
        bytes before the first `@` and moves the index past that `@`, or to
        the end of the input when there is none. */
    method ReadTag() returns (tag: Bytes)
      requires index < |input|
      modifies this
      ensures tag == Tag(input, old(index))
      ensures index == TagEnd(input, old(index))
    {
      ghost var start := index;
      assert input[start..start] == [];
      TagFromSeen(input, start, start);
      tag := [];
      while true
        invariant start <= index <= |input|
        invariant TagFrom(input, index, tag) == TagFrom(input, start, [])
        decreases |input| - index
      {
        var next := Next();
        if next.None? {
          return;
        }
        var b := next.value;
        if MaybeEscaped(b, AT) {
          return;
        }
        if IsWs(b) {
          continue;
        }
        tag := tag + [b];
      }
    }

    /** `parse_assign_start`: reads the type tag up to `@`, then dispatches. */
    method ParseAssignStart() returns (r: Outcome<Assign>)
      requires index < |input|
      modifies this
      ensures r == AssignStartSpec(input, old(index)).0
      ensures index == AssignStartSpec(input, old(index)).1
    {
      var tag := ReadTag();
      match TypeOf(tag)
      case None =>
        r := Err(MakeError(UnexpectedChar));
      case Some(t) =>
        if t.IsScalar() {
          r := TypedAssign(t);
        } else {
          r := Panicked(Unimplemented(index));  // `todo!()`
        }
    }

    /** The comment branch of `Parser::parse`: from the opening `#`, moves
        the index to the closing `#`, or reports that the input ended first
        (the index then stands past the last byte). */
    method SkipComment() returns (closed: bool)
      requires index < |input| && input[index] == HASH
      modifies this
      ensures closed ==> CommentClose(input, old(index) + 1) == Some(index)
      ensures !closed ==> CommentClose(input, old(index) + 1).None? && index == |input|
    {
      ghost var open := index;
      while index < |input|
        invariant open <= index < |input|
        invariant CommentClose(input, open + 1) == CommentClose(input, index + 1)
        decreases |input| - index
      {
        index := index + 1;
        if index == |input| {
          return false;
        }
        if MaybeEscaped(input[index], HASH) {
          return true;
        }
      }
      return true;
    }

    /** `Parser::parse`: the message loop. */
    method Parse() returns (r: Outcome<Message>)
      requires index == 0
      modifies this
      ensures r == ParseSpec(input)
    {
      var len := |input|;
      if input == [] {
        return Ok(Message(map[]));
      }
      var body: map<Bytes, Value> := map[];
      while index < len
        invariant index <= len
        invariant Run(input, index, body) == Run(input, 0, map[])
        decreases len - index
      {
        var byte := input[index];
        if byte == NUL {
          break;
        } else if IsWs(byte) {
        } else if byte == HASH {
          var closed := SkipComment();
          if !closed {
            return Panicked(IndexOutOfBounds(index));  // `self.input[self.index]`
          }
        } else if IsTypeStart(byte) {
          var assign :- ParseAssignStart();
          body := body[assign.ident := assign.value];
        } else {
          return Err(MakeError(UnexpectedChar));
        }
        index := index + 1;
      }
      return Ok(Message(body));
    }
  }
}