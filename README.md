# YADIL parser, modelled in Dafny

This project models the core of the Rust crate that parses YADIL messages (the `lib/` crate). A message is a byte string of assignments of the form `type@ident=value;`. The scalar types are `s`/`str`, `u`/`uint`, `i`/`sint`, `f`/`float` and `b`/`bool`. Assignments may be separated by whitespace and `#…#` comments, and a NUL byte ends the message.

The model covers:

- the `Parser` cursor, with its byte iterator and its escape test;
- the type-tag reader and dispatcher (`parse_assign_start`);
- the assignment splitter (`parse_assign`);
- the five literal decoders;
- the top-level message loop (`Parser::parse`);
- the crate entry points `parse` and `index_to_line_col`.

The project is organised as follows:

- Each state-changing routine of the original is a method of the class `Parser.Parser`, with fields `input` and `index`, or a method with its loop. It is proved equal to a specification function: `SplitFrom`, `Tag`/`TagEnd`, `CommentClose`, `AssignStartSpec`, `Run`, `DecodeX`, or `Line`/`Column`.
- Properties of the original's behaviour are proved about those functions.
- A run of the original can end in three ways, modelled by the datatype `Outcome`:
  - it returns `Ok`;
  - it returns `Err` with an `Error(kind, index)`;
  - it aborts. This is `Panicked`: `Unimplemented` for the `todo!()` of list and map tags, and `IndexOutOfBounds` for the out-of-range read of an unterminated comment.

The model follows the code as written, not the language description:

- **Digits are summed, not weighted by position.** `u@age=42;` yields `Unsigned(6)`, not 42 (`Samples.UnsignedAssignment`, `Literals.UnsignedIgnoresOrder`).
- **Signed and float literals accept one `-` anywhere.** `5-` is −5. A second `-` is always an error, so `i@x=--5;` is rejected with `WrongValue` at index 7 (`Literals.SignedMinusAnywhere`, `Samples.DoubleMinusRejected`).
- **Backslash escaping only works in comments.** `maybe_escaped` is called right after `next()`, so the byte it inspects is the current byte itself. Escaping therefore never applies to `@`, `=` or `;`. It only works in the comment scanner. That scanner advances the index first and then passes the byte at the new index, so `input[index - 1]` really is the byte before it (`Parser.Parser.MaybeEscaped`, `Parser.CommentClose`).
- **An assignment cut short by the end of input succeeds.** It yields whatever identifier and value were gathered, possibly empty (`Samples.CommentThenOpenAssignment`).
- **List and map tags abort** (`Samples.ListUnimplemented`).
- **A later assignment to the same identifier replaces the earlier one, and every other entry keeps its value** (`ParseFacts.RunOverlay` for every input, `Samples.LastWriteWins` for one).

## Model

| member | source | states |
|---|---|---|
| Yadil.Parse | lib/lib.rs:11-13 | `parse` builds a fresh parser and runs it once; its result is exactly `ParseSpec(input)` |
| Yadil.IndexToLineCol | lib/lib.rs:16-30 | the line is one more than the line feeds among the first `index` bytes. The column is one more than the number of bytes since the last line feed, or the byte count plus 2 on the first line. `index` past the end means the whole input |
| Yadil.Line | lib/lib.rs:17-27 | the line is at least 1, and is 1 exactly when no line feed has been passed |
| Yadil.ColumnAfterNewline | lib/lib.rs:21-26 | after a line feed followed by `b` bytes that hold no line feed, the column is `\|b\| + 1` |
| Values.TypeOf | lib/parser/mod.rs:112-121 | a tag names a data type only when it is that type's one-letter or long spelling; any other tag names none |
| Values.TypeOfSpellings | lib/parser/mod.rs:113-119 | each of `s`/`str`, `u`/`uint`, `i`/`sint`, `f`/`float`, `b`/`bool`, `l`/`list`, `m`/`map` is recognised as its own type |
| Parser.Parser.constructor | lib/parser/mod.rs:52-54 | a new parser holds the input with its index at 0 |
| Parser.Parser.MakeError | lib/parser/mod.rs:124-126 | an error carries the given kind and the parser's current index |
| Parser.Parser.MaybeEscaped | lib/parser/mod.rs:134-136 | true only for the expected byte at a positive index, and never when the byte before the index is a backslash. Right after `next`, for any delimiter but the backslash, it is plain equality: escaping has no effect there |
| Parser.Parser.Next | lib/parser/mod.rs:142-149 | yields the byte at the index and advances by one, or yields nothing and leaves the index at the end |
| Parser.CommentClose | lib/parser/mod.rs:71-80 | the comment scan stops at the first `#` not preceded by a backslash, and at none before it; `None` when no such `#` exists |
| Parser.Parser.SkipComment | lib/parser/mod.rs:71-80 | from an opening `#`, the index ends on the first unescaped closing `#`. When there is none it ends past the last byte, where the original reads out of bounds |
| Parser.Parser.ReadTag | lib/parser/mod.rs:102-110 | the tag is every non-whitespace byte before the first `@`. The index ends just past that `@`, or at the end of the input when there is none |
| Parser.TagFromSeen | lib/parser/mod.rs:102-110 | the byte-at-a-time tag loop, from any point before the first `@`, ends with the tag and index that `Tag` and `TagEnd` define over the whole input |
| Parser.TagAtSign | lib/parser/mod.rs:102-110 | when the first `@` after `start` is at `i`, the tag is the non-whitespace bytes of `input[start..i]` and the scan stops at `i + 1` |
| Parser.Dispatch | lib/parser/mod.rs:112-121 | after the tag, a dispatch succeeds only with a decoded scalar and an index inside the input. An error index lies between the tag's end and the input's end. An abort is `Unimplemented` at the index past the tag |
| Parser.DispatchByTag | lib/parser/mod.rs:112-121 | an unknown tag is `UnexpectedChar` at the index past the tag. A list or map tag aborts as unimplemented there. Success comes only from a scalar tag, with a value of that very type |
| Parser.AssignStartSpec | lib/parser/mod.rs:99-122 | an assignment start succeeds with a decoded scalar, fails with an error index inside the input, or aborts only as unimplemented |
| Parser.Parser.ParseAssignStart | lib/parser/mod.rs:99-122 | reading the tag and dispatching yields exactly `AssignStartSpec`'s outcome and index |
| Parser.Parser.ParseAssign | lib/parser/literals.rs:138-178 | the split loop yields exactly the outcome and final index of the scan `SplitFrom`, including the final `index -= 1` |
| Literals.SplitFromStart | lib/parser/literals.rs:143-177 | the byte-at-a-time scan agrees with the declarative split: the first `;` ends the assignment and the first `=` separates identifier from value. Errors: `=` with an empty identifier is `EmptyIdent`; `;` with an empty identifier is `UnexpectedChar`; `;` with no value is `WrongValue` |
| Literals.SplitAtEquals | lib/parser/literals.rs:144-147 | an `=` reached while the identifier is empty fails with `EmptyIdent` at the index past it |
| Literals.SplitAtSemicolon | lib/parser/literals.rs:151-161 | a `;` ends the split: `UnexpectedChar` when the identifier is empty, `WrongValue` when no value byte was gathered, otherwise success with the index on the `;` |
| Literals.SplitAtEnd | lib/parser/literals.rs:172-177 | input that ends before any `;` yields the gathered buffers, with the index on the last byte |
| Literals.SplitBuffersClean | lib/parser/literals.rs:144-170 | the identifier holds no `=`, `;` or whitespace. The value holds no `=` or `;` and does not start with whitespace |
| Literals.TypedAssignSpec | lib/parser/literals.rs:6-21 | an `*_assign` parser never aborts. On success the value is decoded and the index is inside the input; an error index lies within the input |
| Literals.TypedAssignWellTyped | lib/parser/literals.rs:6-21 | a successful `*_assign` parser yields a value of the type it was made for |
| Parser.Parser.TypedAssign | lib/parser/literals.rs:180-186 | splitting then decoding with the type's decoder yields exactly `TypedAssignSpec`'s outcome and index |
| Literals.ToUtf8 | lib/parser/mod.rs:128-130 | succeeds, returning the bytes unchanged, exactly when they are well-formed UTF-8; otherwise `WrongValue` at the given index |
| Literals.DecodeStringSpec | lib/parser/literals.rs:24-27 | `parse_string` succeeds exactly on well-formed UTF-8 and then holds those very bytes; otherwise it fails with `WrongValue` at the given index |
| Literals.ParseUnsigned | lib/parser/literals.rs:29-44 | the loop yields the sum of the digit values when every byte is a digit, else `WrongValue` |
| Literals.UnsignedFortyTwo | lib/parser/literals.rs:40 | `42` decodes to 6: digits are added, not weighted |
| Literals.UnsignedIgnoresOrder | lib/parser/literals.rs:32-43 | the unsigned decoder gives the same outcome for `a + b` and `b + a` |
| Literals.ParseSigned | lib/parser/literals.rs:46-77 | the loop accepts digits with at most one `-`, placed anywhere, and yields the digit sum, negated when a `-` is present; anything else is `WrongValue` |
| Literals.SignedMinusAnywhere | lib/parser/literals.rs:51-74 | one `-` placed anywhere among digits, even after them, negates their sum |
| Literals.SignedRejectsTwoMinus | lib/parser/literals.rs:52-58 | any second `-` makes both the signed and the float decoder fail with `WrongValue` |
| Literals.ParseFloat | lib/parser/literals.rs:79-112 | the loop accepts exactly digits with at most one `-` and at most one `.`, in any order; anything else is `WrongValue` |
| Literals.SignedLiteralIsFloat | lib/parser/literals.rs:46-112 | every literal the signed decoder accepts, the float decoder accepts as well |
| Literals.DecodeBool | lib/parser/literals.rs:129-136 | success is a boolean that is true exactly when the literal starts with `t`; any other input is `WrongValue` |
| Literals.BoolSpellings | lib/parser/literals.rs:131-134 | `true`, `t`, `false` and `f` decode to their boolean, and nothing else decodes |
| Literals.Decode | lib/parser/literals.rs:180-186 | the decoder selected by a scalar type never aborts and fails only with `WrongValue` at the given index |
| Literals.DecodeWellTyped | lib/parser/literals.rs:180-186 | a successful decode yields a value of the very type that selected the decoder, never a list or a map |
| ParseFacts.RunKeepsKeys | lib/parser/mod.rs:81-83 | the message loop only inserts: every identifier already gathered is still present on success |
| ParseFacts.RunOverlay | lib/parser/mod.rs:81-83 | the entries gathered before a point never change whether the loop succeeds or how it fails. On success the result is those entries overlaid by everything inserted later: a later assignment replaces an earlier one with the same identifier, and all other entries keep their values |
| ParseFacts.RunDecoded | lib/parser/mod.rs:81-83 | every value the loop stores is a decoded scalar: well-formed UTF-8 strings, accepted float literals, no lists or maps |
| ParseFacts.RunFailures | lib/parser/mod.rs:65-94 | an error index lies between the loop position and the input's end. The loop aborts only on an unterminated comment, reading at the input's length, or on an unimplemented tag inside the input |
| ParseFacts.ParseFacts | lib/parser/mod.rs:56-97 | `parse` returns only decoded scalar values, reports errors at an index within the input, and aborts only at an unterminated comment or an unimplemented tag |
| Parser.Parser.Parse | lib/parser/mod.rs:56-97 | the message loop computes exactly `ParseSpec(input)`, over the empty-input, NUL, whitespace, comment, assignment and unexpected-byte branches |
| Samples.UnsignedAssignment | lib/parser/literals.rs:29-44 | `u@age=42;` parses to `{age: Unsigned(6)}` |
| Samples.DoubleMinusRejected | lib/parser/literals.rs:52-58 | `i@x=--5;` is rejected with `WrongValue` at index 7 |
| Samples.LastWriteWins | lib/parser/mod.rs:81-83 | `u@a=1;u@a=2;` parses to `{a: Unsigned(2)}` |
| Samples.ListUnimplemented | lib/parser/mod.rs:118 | `l@x=1;` aborts as unimplemented at index 2 |
| Samples.CommentThenOpenAssignment | lib/parser/mod.rs:71-83 | `#x#u@x` skips the comment and accepts the unterminated assignment as `{x: Unsigned(0)}` |
| Utf8.AsciiIsWellFormed | lib/parser/mod.rs:128-130 | every ASCII byte string passes the UTF-8 check |
| Utf8.ConcatIsWellFormed | lib/parser/mod.rs:128-130 | concatenating two well-formed UTF-8 strings gives a well-formed one |
| Utf8.ForbiddenOctetsAbsent | lib/parser/mod.rs:128-130 | the octets C0, C1 and F5 to FF never occur in a string that passes the check |

## Left out

- Literals.ParseFloat: the floating-point accumulation (lib/parser/literals.rs:114-126) is not modelled. `Float` keeps the accepted literal bytes, not the `f64` computed from them.
- Literals.ParseUnsigned, Literals.ParseSigned: the `usize`/`isize` arithmetic is unbounded here. The digit sum is at most nine per byte (`Bytes.DigitSumBound`), so no overflow occurs on 64-bit targets. On 32-bit targets a value of more than about 2^31/9 digit bytes (2^32/9 for `uint`) overflows `total`, which panics in a debug build and wraps in a release build. The model does not capture this.
- The list and map grammar is not modelled: the core reaches `todo!()` for those tags, which is modelled as the `Unimplemented` abort. `lib/parser/complex.rs` is not part of this model.
- `lib/error.rs` is not part of this model. An error is modelled by its kind and index only. The human-readable message strings are dropped.
- The `TypedValue` struct (lib/parser/mod.rs:23-26) is unused by the core and is not modelled.
- `HashMap` hashing and `String` allocation are modelled as a Dafny `map` and as the validated bytes.
- Rust's `String::from_utf8` is modelled by the well-formedness grammar of section 4 of RFC 3629.
- The out-of-range read by the comment scanner of an unterminated comment is modelled as an `IndexOutOfBounds` abort, not as a process panic.
- The command-line program and its file and terminal I/O are outside the core, and so are the earlier drafts of the parser outside `lib/`.
