// The routing loop of bin/Debug/split_by_solution_depth.py: every row goes
// to the output of the first " Solution Depth" column whose value is not -1,
// or to the output of depth -1 when every such column is -1. Rows are given
// by their depth cells in column order; an output is the list of indices of
// the rows written to it, in order; int() is the parameter parse.

module SplitByDepth {
  import opened Wrappers

  const NO_DEPTH: int := -1

  /** The depth a row is routed by: int() applied to the cells in order up
      to the first that is not -1. A cell int() rejects raises ValueError. */
  function FirstDepth(cells: seq<string>, parse: string -> Option<int>): Result<int>
  {
    if |cells| == 0 then Ok(NO_DEPTH)
    else match parse(cells[0])
      case None => Err(ValueError)
      case Some(d) => if d != NO_DEPTH then Ok(d) else FirstDepth(cells[1..], parse)
  }

  /** The routing depth is the first cell that is not -1, and every cell
      before it is -1; it is -1 only when every cell is. */
  lemma {:induction false} FirstDepthIsFirst(cells: seq<string>, parse: string -> Option<int>)
    requires FirstDepth(cells, parse).Ok?
    ensures var d := FirstDepth(cells, parse).value;
      (d == NO_DEPTH <==> forall k :: 0 <= k < |cells| ==> parse(cells[k]) == Some(NO_DEPTH))
      && (d != NO_DEPTH ==> exists k :: (0 <= k < |cells| && parse(cells[k]) == Some(d)
            && forall m :: 0 <= m < k ==> parse(cells[m]) == Some(NO_DEPTH)))
  {
    if |cells| > 0 && parse(cells[0]) == Some(NO_DEPTH) {
      var rest := cells[1..];
      FirstDepthIsFirst(rest, parse);
      var d := FirstDepth(cells, parse).value;
      assert forall k :: 1 <= k < |cells| ==> cells[k] == rest[k - 1];
      if d != NO_DEPTH {
        var k :| 0 <= k < |rest| && parse(rest[k]) == Some(d) && forall m :: 0 <= m < k ==> parse(rest[m]) == Some(NO_DEPTH);
        assert parse(cells[k + 1]) == Some(d);
        assert forall m :: 0 <= m < k + 1 ==> parse(cells[m]) == Some(NO_DEPTH) by {
          forall m | 0 <= m < k + 1 ensures parse(cells[m]) == Some(NO_DEPTH) {
            if m > 0 {
              assert cells[m] == rest[m - 1];
            }
          }
        }
      } else {
        forall k | 0 <= k < |cells| ensures parse(cells[k]) == Some(NO_DEPTH) {
          if k > 0 {
            assert cells[k] == rest[k - 1];
          }
        }
      }
    }
  }

  /** int() raises ValueError, the only way a row can fail. */
  lemma {:induction false} FirstDepthError(cells: seq<string>, parse: string -> Option<int>)
    ensures FirstDepth(cells, parse).Err? ==> FirstDepth(cells, parse).error == ValueError
  {
    if |cells| > 0 && parse(cells[0]) == Some(NO_DEPTH) {
      FirstDepthError(cells[1..], parse);
    }
  }

  /** The inner loop with its break and else. */
  method RowDepth(cells: seq<string>, parse: string -> Option<int>) returns (r: Result<int>)
    ensures r == FirstDepth(cells, parse)
  {
    var i := 0;
    while i < |cells|
      invariant 0 <= i <= |cells| && FirstDepth(cells[i..], parse) == FirstDepth(cells, parse)
    {
      assert cells[i..][1..] == cells[i + 1..];
      var d := parse(cells[i]);
      if d.None? {
        return Err(ValueError);
      }
      if d.value != NO_DEPTH {
        return Ok(d.value);
      }
      i := i + 1;
    }
    return Ok(NO_DEPTH);
  }

  /** Rows 0..n-1 all have a routing depth. */
  ghost predicate Parsed(rows: seq<seq<string>>, parse: string -> Option<int>, n: nat)
    requires n <= |rows|
  {
    forall i :: 0 <= i < n ==> FirstDepth(rows[i], parse).Ok?
  }

  /** The outputs for rows 0..n-1: each lists, in increasing order, exactly
      the rows of its depth. */
  ghost predicate Routed(rows: seq<seq<string>>, parse: string -> Option<int>, n: nat, outputs: map<int, seq<nat>>)
    requires n <= |rows| && Parsed(rows, parse, n)
  {
    (forall b :: b in outputs ==>
      (forall k :: 0 <= k < |outputs[b]| ==> outputs[b][k] < n && FirstDepth(rows[outputs[b][k]], parse).value == b)
      && (forall k, m :: 0 <= k < m < |outputs[b]| ==> outputs[b][k] < outputs[b][m]))
    && (forall i :: 0 <= i < n ==> (FirstDepth(rows[i], parse).value in outputs
        && i in outputs[FirstDepth(rows[i], parse).value]))
  }

  /** Each row lands in exactly one output. */
  lemma ExactlyOneOutput(rows: seq<seq<string>>, parse: string -> Option<int>, outputs: map<int, seq<nat>>, i: nat, b: int)
    requires Parsed(rows, parse, |rows|) && Routed(rows, parse, |rows|, outputs) && i < |rows| && b in outputs
    ensures i in outputs[b] <==> b == FirstDepth(rows[i], parse).value
  {
  }

  /** Writing row n to its output keeps the outputs routed. */
  lemma RouteStep(rows: seq<seq<string>>, parse: string -> Option<int>, n: nat, outputs: map<int, seq<nat>>)
    requires n < |rows| && Parsed(rows, parse, n) && Routed(rows, parse, n, outputs)
    requires FirstDepth(rows[n], parse).Ok?
    ensures var b := FirstDepth(rows[n], parse).value;
      Parsed(rows, parse, n + 1)
      && Routed(rows, parse, n + 1, outputs[b := (if b in outputs then outputs[b] else []) + [n]])
  {
    var b := FirstDepth(rows[n], parse).value;
    var next := outputs[b := (if b in outputs then outputs[b] else []) + [n]];
    assert forall c :: c in outputs && c != b ==> next[c] == outputs[c];
  }

  /** The outer loop. The first row without a routing depth aborts, after
      the rows before it were already written: `written` is the number of
      rows routed, and `outputs` holds them whether or not the run failed. */
  method Split(rows: seq<seq<string>>, parse: string -> Option<int>)
    returns (outputs: map<int, seq<nat>>, written: nat, r: Result<()>)
    ensures r.Err? <==> !Parsed(rows, parse, |rows|)
    ensures written <= |rows| && Parsed(rows, parse, written) && Routed(rows, parse, written, outputs)
    ensures r.Ok? <==> written == |rows|
    ensures r.Err? ==> r.error == ValueError && FirstDepth(rows[written], parse).Err?
  {
    outputs := map[];
    var i := 0;
    while i < |rows|
      invariant 0 <= i <= |rows| && Parsed(rows, parse, i) && Routed(rows, parse, i, outputs)
    {
      var d := RowDepth(rows[i], parse);
      if d.Err? {
        FirstDepthError(rows[i], parse);
        return outputs, i, Err(d.error);
      }
      var b := d.value;
      RouteStep(rows, parse, i, outputs);
      if b !in outputs {
        outputs := outputs[b := []];
      }
      outputs := outputs[b := outputs[b] + [i]];
      i := i + 1;
    }
    return outputs, i, Ok(());
  }
}
