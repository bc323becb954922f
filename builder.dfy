/**
 * The computation-graph builder: an append-only store of nodes and equality
 * constraints, the fill that propagates values from supplied inputs, and the
 * constraint check.
 */
module ComputationGraph {
  import opened Wrappers
  import opened Graph

  class Builder {
    /** The kind of each node, indexed by node id. */
    var kinds: seq<Kind>
    /** The value of each node, indexed by node id; `None` while unresolved. */
    var values: seq<Option<Word>>
    /** The recorded equalities, in the order they were asserted. */
    var constraints: seq<Constraint>

    /**
     * Nodes refer only to earlier nodes, every resolved value agrees with its
     * node's kind, and constraints refer to existing nodes.
     */
    ghost predicate Valid()
      reads this
    {
      WellFormed(kinds) && Agrees(kinds, values) &&
      forall k :: 0 <= k < |constraints| ==> constraints[k].left < |kinds| && constraints[k].right < |kinds|
    }

    /** An empty graph. */
    constructor ()
      ensures Valid()
      ensures kinds == [] && values == [] && constraints == []
    {
      kinds, values, constraints := [], [], [];
    }

    /** Appends a node of kind `k` holding `v`; `v` must agree with `k`. */
    method Append(k: Kind, v: Option<Word>) returns (n: Node)
      requires Valid()
      requires forall j :: 0 <= j < |Parents(k)| ==> Parents(k)[j] < |kinds|
      requires v.Some? ==> k.Constant? && v == Some(k.value)
      requires k.Constant? ==> v.Some?
      modifies this
      ensures Valid()
      ensures n == |old(kinds)|
      ensures kinds == old(kinds) + [k] && values == old(values) + [v]
      ensures constraints == old(constraints)
    {
      n := |kinds|;
      var vals' := values + [v];
      forall i | 0 <= i < |values| && values[i].Some? && !kinds[i].Input?
        ensures vals'[i] == Compute(kinds[i], vals')
      {
        ComputeMonotone(kinds[i], values, vals');
      }
      kinds, values := kinds + [k], vals';
    }

    /** A new input node, unresolved until a fill supplies its value. */
    method Init() returns (n: Node)
      requires Valid()
      modifies this
      ensures Valid()
      ensures n == |old(kinds)|
      ensures kinds == old(kinds) + [Input] && values == old(values) + [None]
      ensures constraints == old(constraints)
    {
      n := Append(Input, None);
    }

    /** A new node that holds `value` from the moment it is created. */
    method Constant(value: Word) returns (n: Node)
      requires Valid()
      modifies this
      ensures Valid()
      ensures n == |old(kinds)|
      ensures kinds == old(kinds) + [Kind.Constant(value)] && values == old(values) + [Some(value)]
      ensures constraints == old(constraints)
    {
      n := Append(Kind.Constant(value), Some(value));
    }

    /** A new node for the wrapping sum of `a` and `b`, unresolved until a fill. */
    method Add(a: Node, b: Node) returns (n: Node)
      requires Valid()
      requires a < |kinds| && b < |kinds|
      modifies this
      ensures Valid()
      ensures n == |old(kinds)|
      ensures kinds == old(kinds) + [Kind.Add(a, b)] && values == old(values) + [None]
      ensures constraints == old(constraints)
    {
      n := Append(Kind.Add(a, b), None);
    }

    /** A new node for the wrapping product of `a` and `b`, unresolved until a fill. */
    method Mul(a: Node, b: Node) returns (n: Node)
      requires Valid()
      requires a < |kinds| && b < |kinds|
      modifies this
      ensures Valid()
      ensures n == |old(kinds)|
      ensures kinds == old(kinds) + [Kind.Mul(a, b)] && values == old(values) + [None]
      ensures constraints == old(constraints)
    {
      n := Append(Kind.Mul(a, b), None);
    }

    /**
     * A new node whose value, once every node of `deps` is resolved, is `f`
     * applied to their values in the order of `deps`.
     */
    method Hint(f: seq<Word> -> Word, deps: seq<Node>) returns (n: Node)
      requires Valid()
      requires forall d :: d in deps ==> d < |kinds|
      modifies this
      ensures Valid()
      ensures n == |old(kinds)|
      ensures kinds == old(kinds) + [Kind.Hint(f, deps)] && values == old(values) + [None]
      ensures constraints == old(constraints)
    {
      assert Parents(Kind.Hint(f, deps)) == deps;
      assert forall j :: 0 <= j < |deps| ==> deps[j] in deps;
      n := Append(Kind.Hint(f, deps), None);
    }

    /** Records that `a` and `b` must hold equal values; resolves nothing. */
    method AssertEqual(a: Node, b: Node)
      requires Valid()
      requires a < |kinds| && b < |kinds|
      modifies this
      ensures Valid()
      ensures constraints == old(constraints) + [Equal(a, b)]
      ensures kinds == old(kinds) && values == old(values)
    {
      constraints := constraints + [Equal(a, b)];
    }

    /**
     * Fills the graph: position i of `inputs` supplies input node i, then
     * passes over the nodes in id order resolve every node whose parents are
     * resolved, until a pass resolves nothing new. Values are written once.
     */
    method FillNodes(inputs: seq<Option<Word>>)
      requires Valid()
      modifies this`values
      ensures Valid()
      ensures values == Settle(kinds, Seed(kinds, old(values), inputs))
      ensures Extends(old(values), values) && Extends(Seed(kinds, old(values), inputs), values)
      ensures Justified(kinds, Seed(kinds, old(values), inputs), values)
      ensures forall i :: 0 <= i < |kinds| && kinds[i].Input? ==>
        values[i] == if old(values)[i].None? && i < |inputs| then inputs[i] else old(values)[i]
      ensures Closed(kinds, values)
      ensures (forall i :: 0 <= i < |kinds| && kinds[i].Input? ==> old(values)[i].Some? || (i < |inputs| && inputs[i].Some?))
        ==> forall i :: 0 <= i < |values| ==> values[i].Some?
    {
      ghost var v0 := values;
      var n := |kinds|;
      var m := if |inputs| < n then |inputs| else n;
      for i := 0 to m
        invariant values == Seed(kinds, v0, inputs[..i])
      {
        if kinds[i].Input? && values[i].None? && inputs[i].Some? {
          values := values[i := inputs[i]];
        }
      }
      ghost var s := values;
      assert s == Seed(kinds, v0, inputs);

      var progress := true;
      while progress
        invariant Extends(s, values) && Justified(kinds, s, values)
        invariant !progress ==> Closed(kinds, values)
        decreases Unresolved(values), progress
      {
        progress := false;
        ghost var start := values;
        for i := 0 to n
          invariant Extends(s, values) && Justified(kinds, s, values)
          invariant progress ==> Unresolved(values) < Unresolved(start)
          invariant !progress ==> values == start
          invariant !progress ==> forall j :: 0 <= j < i && values[j].None? ==> Compute(kinds[j], values).None?
        {
          if values[i].None? {
            var v := Compute(kinds[i], values);
            if v.Some? {
              ResolveStep(kinds, s, values, i, v);
              ResolveOneLowersUnresolved(values, i, v);
              values := values[i := v];
              progress := true;
            }
          }
        }
      }
      FixpointIsSettle(kinds, s, values);
      FillKeepsAgreement(kinds, v0, inputs);
      SeedWritesOnlyInputs(kinds, v0, inputs);
      if forall i :: 0 <= i < |kinds| && kinds[i].Input? ==> v0[i].Some? || (i < |inputs| && inputs[i].Some?) {
        FillResolvesAll(kinds, v0, inputs);
      }
    }

    /**
     * True exactly when every recorded constraint has both nodes resolved to
     * equal values; stops at the first one that fails.
     */
    method CheckConstraints() returns (ok: bool)
      ensures ok <==> forall k :: 0 <= k < |constraints| ==> Satisfied(values, constraints[k])
    {
      ok := true;
      var k := 0;
      while k < |constraints| && ok
        invariant 0 <= k <= |constraints|
        invariant ok <==> forall j :: 0 <= j < k ==> Satisfied(values, constraints[j])
      {
        var c := constraints[k];
        ok := c.left < |values| && c.right < |values| &&
              values[c.left].Some? && values[c.right].Some? && values[c.left] == values[c.right];
        k := k + 1;
      }
    }
  }
}
