/** Running a sequence of operators: every operator keeps its result in a field of its own,
    for the operators that have it as a source. */
module OperatorRunner {
  import opened Syntax
  import opened Compiler

  class Operators {
    const nodes: seq<Node>
    const semantics: Semantics
    const results: array<Val>

    ghost predicate Valid()
    {
      Sourced(nodes) && results.Length == |nodes|
    }

    constructor (nodes: seq<Node>, semantics: Semantics)
      requires Sourced(nodes)
      ensures Valid() && this.nodes == nodes && this.semantics == semantics && fresh(results)
      ensures results[..] == seq(|nodes|, _ => N(0))
    {
      this.nodes, this.semantics := nodes, semantics;
      results := new Val[|nodes|](_ => N(0));
      new;
      assert results[..] == seq(|nodes|, _ => N(0));
    }

    /** One operator; only `not` ever returns false. */
    method InvokeOp(id: nat, columns: string -> int) returns (running: bool)
      requires Valid() && id < |nodes|
      modifies results
      ensures SourcesIn(nodes[id].op, |nodes|)
      ensures var v := Compute(nodes[id].op, old(results[..]), old(results[id]), semantics, columns);
        results[..] == old(results[..])[id := v] && running == !(nodes[id].op.NotOperator? && !AsBool(v))
    {
      assert SourcesIn(nodes[id].op, id);
      Wider(nodes[id].op, id, |nodes|);
      var v := Compute(nodes[id].op, results[..], results[id], semantics, columns);
      results[id] := v;
      return !(nodes[id].op.NotOperator? && !AsBool(v));
    }

    /** The operators of a list in order, up to the first that returns false. An empty list
        returns false. */
    method InvokeOpList(list: seq<nat>, columns: string -> int) returns (running: bool)
      requires Valid() && forall i :: 0 <= i < |list| ==> list[i] < |nodes|
      modifies results
      ensures list == [] ==> !running && results[..] == old(results[..])
      ensures list != [] ==> (results[..], running) == RunList(nodes, list, old(results[..]), semantics, columns)
    {
      if list == [] {
        return false;
      }
      for i := 0 to |list|
        invariant RunList(nodes, list[i..], results[..], semantics, columns) ==
          RunList(nodes, list[0..], old(results[..]), semantics, columns)
      {
        RunStep(nodes, list, i, results[..], semantics, columns);
        running := InvokeOp(list[i], columns);
        if !running {
          assert list[0..] == list;
          return;
        }
      }
      assert list[0..] == list;
      return true;
    }
  }
}
