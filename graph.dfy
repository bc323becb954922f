/**
 * The meaning of a computation graph, apart from how it is built or filled:
 * the node kinds, the value a node computes from the current values, and the
 * single pass in id order that every fill must agree with.
 */
module Graph {
  import opened Wrappers

  /** A node handle: the id the builder assigned when it created the node (0, 1, 2, ...). */
  type Node = nat

  /** An unsigned 32-bit value; `+` and `*` on it wrap modulo 2^32. */
  type Word = bv32

  datatype Kind =
    | Input
    | Constant(value: Word)
    | Add(a: Node, b: Node)
    | Mul(a: Node, b: Node)
      /** `f` receives the values of `deps`, in that order. */
    | Hint(f: seq<Word> -> Word, deps: seq<Node>)

  /** u32 addition wrapping modulo 2^32. */
  function WrappingAdd(x: Word, y: Word): Word
  {
    x + y
  }

  /** u32 multiplication wrapping modulo 2^32. */
  function WrappingMul(x: Word, y: Word): Word
  {
    x * y
  }

  /** A recorded equality between the values of two nodes. */
  datatype Constraint = Equal(left: Node, right: Node)

  function Parents(k: Kind): seq<Node>
  {
    match k
    case Input => []
    case Constant(_) => []
    case Add(a, b) => [a, b]
    case Mul(a, b) => [a, b]
    case Hint(_, deps) => deps
  }

  /** Acyclic by construction: every node refers only to nodes created before it. */
  predicate WellFormed(kinds: seq<Kind>)
  {
    forall i, j :: 0 <= i < |kinds| && 0 <= j < |Parents(kinds[i])| ==> Parents(kinds[i])[j] < i
  }

  predicate Resolved(vals: seq<Option<Word>>, n: Node)
  {
    n < |vals| && vals[n].Some?
  }

  predicate AllResolved(deps: seq<Node>, vals: seq<Option<Word>>)
  {
    forall k :: 0 <= k < |deps| ==> Resolved(vals, deps[k])
  }

  /** The values of `deps`, in dependency order. */
  function ValuesOf(deps: seq<Node>, vals: seq<Option<Word>>): seq<Word>
    requires AllResolved(deps, vals)
  {
    seq(|deps|, k requires 0 <= k < |deps| => vals[deps[k]].value)
  }

  /**
   * The value a node of kind `k` takes given the current values `vals`:
   * `None` while one of its parents is unresolved, and always `None` for an
   * input, whose value can only come from outside.
   */
  function Compute(k: Kind, vals: seq<Option<Word>>): Option<Word>
  {
    match k
    case Input => None
    case Constant(v) => Some(v)
    case Add(a, b) =>
      if Resolved(vals, a) && Resolved(vals, b) then Some(WrappingAdd(vals[a].value, vals[b].value)) else None
    case Mul(a, b) =>
      if Resolved(vals, a) && Resolved(vals, b) then Some(WrappingMul(vals[a].value, vals[b].value)) else None
    case Hint(f, deps) =>
      if AllResolved(deps, vals) then Some(f(ValuesOf(deps, vals))) else None
  }

  /**
   * Every resolved value agrees with its node's kind: a resolved non-input
   * node holds what its kind computes, and a constant holds its constant.
   */
  predicate Agrees(kinds: seq<Kind>, vals: seq<Option<Word>>)
  {
    |vals| == |kinds| &&
    (forall i :: 0 <= i < |vals| && vals[i].Some? && !kinds[i].Input? ==> vals[i] == Compute(kinds[i], vals)) &&
    (forall i :: 0 <= i < |vals| && kinds[i].Constant? ==> vals[i] == Some(kinds[i].value))
  }

  /** `r` keeps every value `s` holds (values are written once). */
  predicate Extends(s: seq<Option<Word>>, r: seq<Option<Word>>)
  {
    |s| <= |r| && forall i :: 0 <= i < |s| && s[i].Some? ==> r[i] == s[i]
  }

  /** Every value `r` holds that `s` does not is what its node computes from `r`. */
  predicate Justified(kinds: seq<Kind>, s: seq<Option<Word>>, r: seq<Option<Word>>)
  {
    |r| == |kinds| && |s| == |kinds| &&
    forall i :: 0 <= i < |r| && r[i] != s[i] ==> r[i] == Compute(kinds[i], r)
  }

  /** A fixpoint: no node that is still unresolved could be computed from `r`. */
  predicate Closed(kinds: seq<Kind>, r: seq<Option<Word>>)
  {
    |r| == |kinds| && forall i :: 0 <= i < |r| && r[i].None? ==> Compute(kinds[i], r).None?
  }

  /**
   * The values once `inputs` are supplied: position i sets node i when that
   * node is an input that is still unresolved; every other entry, and every
   * entry past the last node, is ignored.
   */
  function Seed(kinds: seq<Kind>, vals: seq<Option<Word>>, inputs: seq<Option<Word>>): seq<Option<Word>>
  {
    seq(|vals|, i requires 0 <= i < |vals| =>
      if i < |inputs| && i < |kinds| && kinds[i].Input? && vals[i].None? then inputs[i] else vals[i])
  }

  /** The first `n` values of one pass over `s` in id order. */
  function SettlePrefix(kinds: seq<Kind>, s: seq<Option<Word>>, n: nat): (r: seq<Option<Word>>)
    requires |s| == |kinds| && n <= |s|
    ensures |r| == n
  {
    if n == 0 then []
    else
      var p := SettlePrefix(kinds, s, n - 1);
      p + [if s[n - 1].Some? then s[n - 1] else Compute(kinds[n - 1], p)]
  }

  /**
   * The reference evaluation of seeded values `s`: one pass in id order,
   * each unresolved node computed from the parents settled before it.
   */
  function Settle(kinds: seq<Kind>, s: seq<Option<Word>>): (r: seq<Option<Word>>)
    requires |s| == |kinds|
    ensures |r| == |s|
  {
    SettlePrefix(kinds, s, |s|)
  }

  /** A constraint holds when both of its nodes are resolved to the same value. */
  predicate Satisfied(vals: seq<Option<Word>>, c: Constraint)
  {
    Resolved(vals, c.left) && Resolved(vals, c.right) && vals[c.left] == vals[c.right]
  }

  /** The number of unresolved nodes: what each resolving pass of a fill lowers. */
  function Unresolved(vals: seq<Option<Word>>): nat
  {
    if vals == [] then 0 else (if vals[0].None? then 1 else 0) + Unresolved(vals[1..])
  }

  // ---------------------------------------------------------------------------
  // Facts about Compute

  /** A node's computed value depends only on nodes below `m` when its parents are. */
  lemma ComputePrefix(k: Kind, r: seq<Option<Word>>, m: nat)
    requires m <= |r|
    requires forall j :: 0 <= j < |Parents(k)| ==> Parents(k)[j] < m
    ensures Compute(k, r[..m]) == Compute(k, r)
  {
    match k
    case Input =>
    case Constant(_) =>
    case Add(a, b) =>
      assert Parents(k)[0] == a && Parents(k)[1] == b;
    case Mul(a, b) =>
      assert Parents(k)[0] == a && Parents(k)[1] == b;
    case Hint(f, deps) =>
      assert Parents(k) == deps;
      assert forall j :: 0 <= j < |deps| ==> deps[j] < m;
      if AllResolved(deps, r) {
        assert AllResolved(deps, r[..m]);
        assert ValuesOf(deps, r[..m]) == ValuesOf(deps, r);
      }
  }

  /** Once a node can be computed, resolving more nodes does not change its value. */
  lemma ComputeMonotone(k: Kind, r: seq<Option<Word>>, r': seq<Option<Word>>)
    requires Extends(r, r')
    requires Compute(k, r).Some?
    ensures Compute(k, r') == Compute(k, r)
  {
    match k
    case Input =>
    case Constant(_) =>
    case Add(a, b) =>
    case Mul(a, b) =>
    case Hint(f, deps) =>
      assert AllResolved(deps, r');
      assert ValuesOf(deps, r') == ValuesOf(deps, r);
  }

  /** A non-input node whose parents are all resolved can be computed. */
  lemma ComputeDefined(k: Kind, r: seq<Option<Word>>)
    requires !k.Input?
    requires forall j :: 0 <= j < |Parents(k)| ==> Resolved(r, Parents(k)[j])
    ensures Compute(k, r).Some?
  {
    match k
    case Constant(_) =>
    case Add(a, b) =>
      assert Parents(k)[0] == a && Parents(k)[1] == b;
    case Mul(a, b) =>
      assert Parents(k)[0] == a && Parents(k)[1] == b;
    case Hint(f, deps) =>
      assert Parents(k) == deps;
  }

  // ---------------------------------------------------------------------------
  // Facts about Settle

  lemma {:induction false} SettlePrefixIsPrefix(kinds: seq<Kind>, s: seq<Option<Word>>, n: nat, m: nat)
    requires |s| == |kinds| && n <= m <= |s|
    ensures SettlePrefix(kinds, s, m)[..n] == SettlePrefix(kinds, s, n)
    decreases m
  {
    if n < m {
      SettlePrefixIsPrefix(kinds, s, n, m - 1);
      assert SettlePrefix(kinds, s, m)[..m - 1] == SettlePrefix(kinds, s, m - 1);
    }
  }

  /** Node i of the reference evaluation: its seeded value, or what it computes from the result. */
  lemma SettleAt(kinds: seq<Kind>, s: seq<Option<Word>>, i: nat)
    requires WellFormed(kinds) && |s| == |kinds| && i < |s|
    ensures Settle(kinds, s)[i] == if s[i].Some? then s[i] else Compute(kinds[i], Settle(kinds, s))
  {
    var r := Settle(kinds, s);
    SettlePrefixIsPrefix(kinds, s, i + 1, |s|);
    SettlePrefixIsPrefix(kinds, s, i, |s|);
    assert r[..i + 1][..i] == r[..i];
    ComputePrefix(kinds[i], r, i);
  }

  /** The reference evaluation keeps the seeded values, computes every new one, and is a fixpoint. */
  lemma SettleIsFixpoint(kinds: seq<Kind>, s: seq<Option<Word>>)
    requires WellFormed(kinds) && |s| == |kinds|
    ensures Extends(s, Settle(kinds, s))
    ensures Justified(kinds, s, Settle(kinds, s))
    ensures Closed(kinds, Settle(kinds, s))
  {
    var r := Settle(kinds, s);
    forall i | 0 <= i < |s|
      ensures r[i] == if s[i].Some? then s[i] else Compute(kinds[i], r)
    {
      SettleAt(kinds, s, i);
    }
  }

  lemma {:induction false} FixpointPrefix(kinds: seq<Kind>, s: seq<Option<Word>>, r: seq<Option<Word>>, n: nat)
    requires WellFormed(kinds) && |s| == |kinds| && |r| == |s| && n <= |s|
    requires Extends(s, r) && Justified(kinds, s, r) && Closed(kinds, r)
    ensures r[..n] == SettlePrefix(kinds, s, n)
    decreases n
  {
    if n > 0 {
      var i := n - 1;
      FixpointPrefix(kinds, s, r, i);
      ComputePrefix(kinds[i], r, i);
      assert r[..n] == r[..i] + [r[i]];
    }
  }

  /**
   * Uniqueness: any values that keep the seeded ones, compute every new one
   * from the others and admit no further step are the reference evaluation.
   * So whatever order a fill visits nodes in, its fixpoint is determined.
   */
  lemma FixpointIsSettle(kinds: seq<Kind>, s: seq<Option<Word>>, r: seq<Option<Word>>)
    requires WellFormed(kinds) && |s| == |kinds| && |r| == |s|
    requires Extends(s, r) && Justified(kinds, s, r) && Closed(kinds, r)
    ensures r == Settle(kinds, s)
  {
    FixpointPrefix(kinds, s, r, |s|);
    assert r[..|s|] == r;
  }

  /** Settling is idempotent: re-evaluating a settled graph changes nothing. */
  lemma SettleIdempotent(kinds: seq<Kind>, s: seq<Option<Word>>)
    requires WellFormed(kinds) && |s| == |kinds|
    ensures Settle(kinds, Settle(kinds, s)) == Settle(kinds, s)
  {
    var r := Settle(kinds, s);
    SettleIsFixpoint(kinds, s);
    FixpointIsSettle(kinds, r, r);
  }

  /**
   * In any fixpoint over seeded values in which every input is resolved, the
   * first `n` nodes are resolved.
   */
  lemma {:induction false} SuppliedInputsResolvePrefix(kinds: seq<Kind>, s: seq<Option<Word>>, r: seq<Option<Word>>, n: nat)
    requires WellFormed(kinds) && |s| == |r| && Extends(s, r) && Closed(kinds, r)
    requires forall i :: 0 <= i < |s| && kinds[i].Input? ==> s[i].Some?
    requires n <= |r|
    ensures forall i :: 0 <= i < n ==> r[i].Some?
    decreases n
  {
    if n > 0 {
      var i := n - 1;
      SuppliedInputsResolvePrefix(kinds, s, r, i);
      if !kinds[i].Input? {
        assert forall j :: 0 <= j < |Parents(kinds[i])| ==> Parents(kinds[i])[j] < i;
        ComputeDefined(kinds[i], r);
      }
    }
  }

  // ---------------------------------------------------------------------------
  // Facts about a fill: Seed, then Settle

  /** Supplying inputs keeps every resolved value and writes only unresolved input nodes. */
  lemma SeedWritesOnlyInputs(kinds: seq<Kind>, vals: seq<Option<Word>>, inputs: seq<Option<Word>>)
    ensures |Seed(kinds, vals, inputs)| == |vals| && Extends(vals, Seed(kinds, vals, inputs))
    ensures forall i :: 0 <= i < |vals| && Seed(kinds, vals, inputs)[i] != vals[i] ==>
      i < |kinds| && kinds[i].Input? && vals[i].None? && i < |inputs| && Seed(kinds, vals, inputs)[i] == inputs[i]
    ensures forall i :: 0 <= i < |vals| && i < |kinds| && kinds[i].Input? && vals[i].None? && i < |inputs| ==>
      Seed(kinds, vals, inputs)[i] == inputs[i]
  {
  }

  /** A fill keeps every resolved value agreeing with its node's kind, and every constant set. */
  lemma FillKeepsAgreement(kinds: seq<Kind>, vals: seq<Option<Word>>, inputs: seq<Option<Word>>)
    requires WellFormed(kinds) && Agrees(kinds, vals)
    ensures Agrees(kinds, Settle(kinds, Seed(kinds, vals, inputs)))
  {
    var s := Seed(kinds, vals, inputs);
    var r := Settle(kinds, s);
    SettleIsFixpoint(kinds, s);
    forall i | 0 <= i < |r| && r[i].Some? && !kinds[i].Input?
      ensures r[i] == Compute(kinds[i], r)
    {
      if r[i] == s[i] {
        assert s[i] == vals[i];
        ComputeMonotone(kinds[i], vals, r);
      }
    }
  }

  /** If every input node is resolved or supplied a value, a fill resolves every node. */
  lemma FillResolvesAll(kinds: seq<Kind>, vals: seq<Option<Word>>, inputs: seq<Option<Word>>)
    requires WellFormed(kinds) && |vals| == |kinds|
    requires forall i :: 0 <= i < |kinds| && kinds[i].Input? ==> vals[i].Some? || (i < |inputs| && inputs[i].Some?)
    ensures forall i :: 0 <= i < |kinds| ==> Settle(kinds, Seed(kinds, vals, inputs))[i].Some?
  {
    var s := Seed(kinds, vals, inputs);
    SettleIsFixpoint(kinds, s);
    SuppliedInputsResolvePrefix(kinds, s, Settle(kinds, s), |s|);
  }

  /**
   * In filled values, a node whose parents are all resolved is resolved to its
   * kind's result: the wrapping sum or product of its two parents, or its hint
   * function applied to its dependencies' values in order.
   */
  lemma FilledNodeHoldsResult(kinds: seq<Kind>, vals: seq<Option<Word>>, i: nat)
    requires Agrees(kinds, vals) && Closed(kinds, vals) && i < |vals|
    requires !kinds[i].Input? && forall j :: 0 <= j < |Parents(kinds[i])| ==> Resolved(vals, Parents(kinds[i])[j])
    ensures vals[i].Some?
    ensures kinds[i].Constant? ==> vals[i].value == kinds[i].value
    ensures kinds[i].Add? ==> vals[i].value == WrappingAdd(vals[kinds[i].a].value, vals[kinds[i].b].value)
    ensures kinds[i].Mul? ==> vals[i].value == WrappingMul(vals[kinds[i].a].value, vals[kinds[i].b].value)
    ensures kinds[i].Hint? ==> vals[i].value == kinds[i].f(ValuesOf(kinds[i].deps, vals))
  {
    ComputeDefined(kinds[i], vals);
  }

  /** Filling a filled graph again with the same inputs changes nothing. */
  lemma FillIdempotent(kinds: seq<Kind>, vals: seq<Option<Word>>, inputs: seq<Option<Word>>)
    requires WellFormed(kinds) && |vals| == |kinds|
    ensures var r := Settle(kinds, Seed(kinds, vals, inputs));
            Settle(kinds, Seed(kinds, r, inputs)) == r
  {
    var s := Seed(kinds, vals, inputs);
    var r := Settle(kinds, s);
    SettleIsFixpoint(kinds, s);
    forall i | 0 <= i < |r|
      ensures Seed(kinds, r, inputs)[i] == r[i]
    {
      if i < |inputs| && kinds[i].Input? && r[i].None? {
        assert s[i].None?;
        assert vals[i].None?;
      }
    }
    assert Seed(kinds, r, inputs) == r;
    SettleIdempotent(kinds, s);
  }

  /** A constraint that holds before a fill still holds after it. */
  lemma FillKeepsSatisfied(kinds: seq<Kind>, vals: seq<Option<Word>>, inputs: seq<Option<Word>>, c: Constraint)
    requires WellFormed(kinds) && |vals| == |kinds|
    requires Satisfied(vals, c)
    ensures Satisfied(Settle(kinds, Seed(kinds, vals, inputs)), c)
  {
    var s := Seed(kinds, vals, inputs);
    SettleIsFixpoint(kinds, s);
  }

  /** Resolving one node lowers the count of unresolved nodes by one. */
  lemma {:induction false} ResolveOneLowersUnresolved(vals: seq<Option<Word>>, i: nat, v: Option<Word>)
    requires i < |vals| && vals[i].None? && v.Some?
    ensures Unresolved(vals[i := v]) + 1 == Unresolved(vals)
    decreases i
  {
    if i > 0 {
      assert vals[i := v][1..] == vals[1..][i - 1 := v];
      ResolveOneLowersUnresolved(vals[1..], i - 1, v);
    } else {
      assert vals[i := v][1..] == vals[1..];
    }
  }

  /**
   * One step of a fill: resolving an unresolved node to what it computes keeps
   * the seeded values and keeps every new value justified.
   */
  lemma ResolveStep(kinds: seq<Kind>, s: seq<Option<Word>>, r: seq<Option<Word>>, i: nat, v: Option<Word>)
    requires Extends(s, r) && Justified(kinds, s, r)
    requires i < |r| && r[i].None? && v == Compute(kinds[i], r) && v.Some?
    ensures Extends(r, r[i := v])
    ensures Extends(s, r[i := v]) && Justified(kinds, s, r[i := v])
  {
    var r' := r[i := v];
    assert Extends(r, r');
    forall k | 0 <= k < |r'| && r'[k] != s[k]
      ensures r'[k] == Compute(kinds[k], r')
    {
      ComputeMonotone(kinds[k], r, r');
    }
  }
}
