/** The public surface of the crate, `lib/lib.rs`: the `parse` entry point
    and the diagnostic helper that turns an error index into a line and a
    column. */
module Yadil {
  import opened Bytes
  import opened Errors
  import opened Values
  import Parser

  /** `parse`: a fresh parser over `input`, run once. */
  method Parse(input: Bytes) returns (r: Outcome<Message>)
    ensures r == Parser.ParseSpec(input)
  {
    var p := new Parser.Parser(input);
    r := p.Parse();
  }

  /** The line reached after the bytes `p`: one more than the line feeds
      among them. */
  function Line(p: Bytes): (line: nat)
    ensures line >= 1
    ensures line == 1 <==> LF !in p
  {
    1 + Count(p, LF)
  }

  /** The column reached after the bytes `p`. On the first line it starts
      at 2; after a line feed it restarts at 1, and each other byte adds
      one. */
  function Column(p: Bytes): (col: nat)
    ensures col >= 1
    ensures LF in p ==> col <= |p|
  {
    if LF in p then |p| - LastIndexOf(p, LF) else |p| + 2
  }

  /** The column after one more byte: 1 after a line feed, one more
      otherwise. */
  lemma ColumnSnoc(p: Bytes, b: Byte)
    ensures Column(p + [b]) == if b == LF then 1 else Column(p) + 1
  {
    var q := p + [b];
    if b == LF {
      assert LastIndexOf(q, LF) == |p|;
    } else {
      assert forall i :: 0 <= i < |p| ==> q[i] == p[i];
      if LF in p {
        var k := LastIndexOf(p, LF);
        assert q[k] == LF;
        assert LastIndexOf(q, LF) == k;
      } else {
        assert LF !in q;
      }
    }
  }

  /** The column counts the bytes since the last line feed. */
  lemma ColumnAfterNewline(a: Bytes, b: Bytes)
    requires LF !in b
    ensures Column(a + [LF] + b) == |b| + 1
  {
    var q := a + [LF] + b;
    assert q[|a|] == LF;
    assert forall i :: |a| < i < |q| ==> q[i] == b[i - |a| - 1];
    assert LastIndexOf(q, LF) == |a|;
  }

  /** `index_to_line_col`: line and column after the first `index` bytes of
      `input` (all of them when `index` is past the end). */
  method IndexToLineCol(input: Bytes, index: nat) returns (line: nat, col: nat)
    ensures var p := input[..if index < |input| then index else |input|];
      line == Line(p) && col == Column(p)
  {
    line := 1;
    col := 2;
    var n := if index < |input| then index else |input|;
    for i := 0 to n
      invariant line == Line(input[..i])
      invariant col == Column(input[..i])
    {
      var b := input[i];
      assert input[..i + 1] == input[..i] + [b];
      ColumnSnoc(input[..i], b);
      if b == LF {
        line := line + 1;
        col := 1;
      } else {
        col := col + 1;
      }
    }
  }
}
