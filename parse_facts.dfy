/** What the message loop of `Parser::parse` guarantees for every input. */
module ParseFacts {
  import opened Bytes
  import opened Errors
  import opened Values
  import opened Literals
  import opened Parser

  /** Every entry holds a value a decoder can return. */
  predicate AllDecoded(body: map<Bytes, Value>) {
    forall k :: k in body ==> Decoded(body[k])
  }

  /** The loop only ever adds or replaces entries: every key of `body`
      is still there when it succeeds. */
  lemma {:induction false} RunKeepsKeys(input: Bytes, i: nat, body: map<Bytes, Value>)
    ensures Run(input, i, body).Ok? ==> body.Keys <= Run(input, i, body).value.body.Keys
    decreases |input| - i, 1
  {
    if i >= |input| || input[i] == NUL {
    } else if IsWs(input[i]) {
      RunKeepsKeys(input, i + 1, body);
    } else if input[i] == HASH {
      match CommentClose(input, i + 1)
      case None =>
      case Some(j) => RunKeepsKeys(input, j + 1, body);
    } else if IsTypeStart(input[i]) {
      RunKeepsKeysAssign(input, i, body);
    }
  }

  lemma {:induction false} RunKeepsKeysAssign(input: Bytes, i: nat, body: map<Bytes, Value>)
    requires i < |input|
    ensures RunAssign(input, i, body).Ok? ==> body.Keys <= RunAssign(input, i, body).value.body.Keys
    decreases |input| - i, 0
  {
    var step := AssignStartSpec(input, i);
    if step.0.Ok? {
      RunKeepsKeys(input, step.1 + 1, body[step.0.value.ident := step.0.value.value]);
    }
  }

  /** Every value the loop adds is one a decoder returns: never a list or
      a map, strings well-formed UTF-8. */
  lemma {:induction false} RunDecoded(input: Bytes, i: nat, body: map<Bytes, Value>)
    requires AllDecoded(body)
    ensures Run(input, i, body).Ok? ==> AllDecoded(Run(input, i, body).value.body)
    decreases |input| - i, 1
  {
    if i >= |input| || input[i] == NUL {
    } else if IsWs(input[i]) {
      RunDecoded(input, i + 1, body);
    } else if input[i] == HASH {
      match CommentClose(input, i + 1)
      case None =>
      case Some(j) => RunDecoded(input, j + 1, body);
    } else if IsTypeStart(input[i]) {
      RunDecodedAssign(input, i, body);
    }
  }

  lemma {:induction false} RunDecodedAssign(input: Bytes, i: nat, body: map<Bytes, Value>)
    requires i < |input| && AllDecoded(body)
    ensures RunAssign(input, i, body).Ok? ==> AllDecoded(RunAssign(input, i, body).value.body)
    decreases |input| - i, 0
  {
    var step := AssignStartSpec(input, i);
    if step.0.Ok? {
      RunDecoded(input, step.1 + 1, body[step.0.value.ident := step.0.value.value]);
    }
  }

  /** The entries gathered before `i` never change how the loop ends, and
      on success they sit under everything the loop inserts from `i` on:
      each insertion replaces an earlier entry with the same identifier,
      and every other entry keeps its value. */
  lemma {:induction false} RunOverlay(input: Bytes, i: nat, body: map<Bytes, Value>)
    ensures Run(input, i, body).Ok? <==> Run(input, i, map[]).Ok?
    ensures !Run(input, i, map[]).Ok? ==> Run(input, i, body) == Run(input, i, map[])
    ensures Run(input, i, body).Ok? ==>
      Run(input, i, body).value.body == body + Run(input, i, map[]).value.body
    decreases |input| - i, 1
  {
    if i >= |input| || input[i] == NUL {
      assert body + map[] == body;
    } else if IsWs(input[i]) {
      RunOverlay(input, i + 1, body);
    } else if input[i] == HASH {
      match CommentClose(input, i + 1)
      case None =>
      case Some(j) => RunOverlay(input, j + 1, body);
    } else if IsTypeStart(input[i]) {
      RunOverlayAssign(input, i, body);
    }
  }

  lemma {:induction false} RunOverlayAssign(input: Bytes, i: nat, body: map<Bytes, Value>)
    requires i < |input|
    ensures RunAssign(input, i, body).Ok? <==> RunAssign(input, i, map[]).Ok?
    ensures !RunAssign(input, i, map[]).Ok? ==> RunAssign(input, i, body) == RunAssign(input, i, map[])
    ensures RunAssign(input, i, body).Ok? ==>
      RunAssign(input, i, body).value.body == body + RunAssign(input, i, map[]).value.body
    decreases |input| - i, 0
  {
    var step := AssignStartSpec(input, i);
    if step.0.Ok? {
      var j := step.1 + 1;
      var k := step.0.value.ident;
      var v := step.0.value.value;
      assert RunAssign(input, i, body) == Run(input, j, body[k := v]);
      assert RunAssign(input, i, map[]) == Run(input, j, map[k := v]);
      RunOverlay(input, j, body[k := v]);
      RunOverlay(input, j, map[k := v]);
      RunOverlay(input, j, map[]);
      if Run(input, j, map[]).Ok? {
        var rest := Run(input, j, map[]).value.body;
        OverlayInsert(body, k, v, rest);
      }
    }
  }

  /** Inserting and then overlaying is overlaying the one-entry map first. */
  lemma OverlayInsert(body: map<Bytes, Value>, k: Bytes, v: Value, rest: map<Bytes, Value>)
    ensures body[k := v] + rest == body + (map[k := v] + rest)
  {
  }

  /** An error of the loop from `i` points at or after `i` and at most one
      past the last byte; an abort is an unimplemented tag past `i` or the
      comment scan reading one past the end. */
  lemma {:induction false} RunFailures(input: Bytes, i: nat, body: map<Bytes, Value>)
    ensures var r := Run(input, i, body);
      && (r.Err? ==> i <= r.error.index <= |input|)
      && (r.Panicked? ==>
            r.panic == IndexOutOfBounds(|input|)
            || (r.panic.Unimplemented? && i < r.panic.index <= |input|))
    decreases |input| - i, 1
  {
    if i >= |input| || input[i] == NUL {
    } else if IsWs(input[i]) {
      RunFailures(input, i + 1, body);
    } else if input[i] == HASH {
      match CommentClose(input, i + 1)
      case None =>
      case Some(j) => RunFailures(input, j + 1, body);
    } else if IsTypeStart(input[i]) {
      RunFailuresAssign(input, i, body);
    }
  }

  lemma {:induction false} RunFailuresAssign(input: Bytes, i: nat, body: map<Bytes, Value>)
    requires i < |input|
    ensures var r := RunAssign(input, i, body);
      && (r.Err? ==> i <= r.error.index <= |input|)
      && (r.Panicked? ==>
            r.panic == IndexOutOfBounds(|input|)
            || (r.panic.Unimplemented? && i < r.panic.index <= |input|))
    decreases |input| - i, 0
  {
    var step := AssignStartSpec(input, i);
    if step.0.Ok? {
      RunFailures(input, step.1 + 1, body[step.0.value.ident := step.0.value.value]);
    } else if step.0.Err? {
      assert RunAssign(input, i, body) == Err(step.0.error);
    } else {
      assert RunAssign(input, i, body) == Panicked(Unimplemented(step.1));
    }
  }

  /** `parse` never returns a list or a map, reports errors inside the
      input, and aborts only at an unimplemented tag or an unterminated
      comment. */
  lemma ParseFacts(input: Bytes)
    ensures var r := ParseSpec(input);
      && (r.Ok? ==> AllDecoded(r.value.body))
      && (r.Err? ==> r.error.index <= |input|)
      && (r.Panicked? ==> r.panic == IndexOutOfBounds(|input|) || r.panic.Unimplemented?)
  {
    if input != [] {
      RunDecoded(input, 0, map[]);
      RunFailures(input, 0, map[]);
    }
  }
}
