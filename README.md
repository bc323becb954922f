# Computation-graph builder (cgl), modelled in Dafny

The model covers the `Builder` of `src/lib.rs`. It is an append-only directed acyclic graph of
scalar `u32` nodes. A node is an input (`init`), a constant, the sum or product of two earlier
nodes, or a hint. A hint node's value is a caller-supplied function of its dependencies'
values, taken in order. The builder also records equality constraints (`assert_equal`). It
fills the graph from supplied input values (`fill_nodes`) and checks the constraints
(`check_constraints`).

Every method body in `src/lib.rs` is `todo!()`. The behaviour modelled here comes from three
places: the doc-comments at `src/lib.rs:7-53`, the API and expectations of
`tests/computation_graph_tests.rs`, and the intended algorithm. That algorithm supplies the
inputs, then passes over the nodes in id order until a pass resolves nothing new. Each value
is written once.

Files:

- `wrappers.dfy`: `Option`, the value a node holds (`None` while unresolved).
- `graph.dfy` (module `Graph`): the meaning of a graph. It holds the node kinds, and `Compute`,
  the value a node of a given kind takes from the current values. `Seed` supplies the inputs.
  `Settle` is the reference evaluation: one pass in id order, which the fixpoint loop must
  agree with. The lemmas about fills are here too.
- `builder.dfy` (module `ComputationGraph`): class `Builder`. Its fields are `kinds`, `values`
  and `constraints`, each a sequence indexed by node id or in assertion order. Its methods
  mirror the Rust API. `FillNodes` is the repeat-until-no-progress loop and writes `values` in
  place. `CheckConstraints` is a read-only loop over the constraints.
- `scenarios.dfy` (module `Scenarios`): the integration tests, proved from the builder's
  contracts, and the hint functions they use.

Modelling choices:

- `Node` is a plain `nat` id, and ids are handed out as 0, 1, 2, … The invariant
  `Graph.WellFormed` (every parent id is below the node's own id) holds because nodes are
  only appended.
- `u32` is `bv32`, so `add` and `mul` wrap modulo 2^32 (`Graph.WrappingAdd`,
  `Graph.WrappingMul`).
- A hint function is a total Dafny function `seq<bv32> -> bv32`. The graph makes no
  assumption about it.
- The API follows the tests: `hint(f, deps)` and `fill_nodes(Vec<Option<u32>>)`.
  - Position i of the inputs supplies node i when node i is an input that is still
    unresolved.
  - Entries at other positions are ignored, and so are entries past the last node.
  - Missing trailing entries supply nothing.
- `check_constraints` returns a bool, as the Rust signature does. It is true exactly when
  every recorded pair has two resolved, equal values. A pair with an unresolved side fails
  the check; it does not panic.
- `add`, `mul`, `hint` and `assert_equal` take `Node` handles, which only this builder
  hands out. The Rust signatures return `Node` with no error path, so "the node exists" is a
  precondition here, not an `InvalidReference` error.

## Model

| member | source | states |
|---|---|---|
| `ComputationGraph.Builder.constructor` | src/lib.rs:8-11 | a new builder has no nodes, no values and no constraints, and satisfies the invariant |
| `ComputationGraph.Builder.Init` | src/lib.rs:13-16 | appends a fresh unresolved input node with the next id; existing nodes, values and constraints are unchanged |
| `ComputationGraph.Builder.Constant` | src/lib.rs:18-21 | appends a fresh node that holds `value` from creation; nothing existing changes |
| `ComputationGraph.Builder.Add` | src/lib.rs:23-26 | appends a fresh, unresolved `Add(a, b)` node over two existing nodes; nothing existing changes |
| `ComputationGraph.Builder.Mul` | src/lib.rs:28-31 | appends a fresh, unresolved `Mul(a, b)` node over two existing nodes; nothing existing changes |
| `ComputationGraph.Builder.Hint` | src/lib.rs:49-53 | appends a fresh, unresolved node that holds `f` of its dependencies' values in order; nothing existing changes |
| `ComputationGraph.Builder.AssertEqual` | src/lib.rs:33-36 | appends the pair `(a, b)` to the constraints and changes no node or value |
| `ComputationGraph.Builder.FillNodes` | src/lib.rs:38-41 | the loop ends at the reference evaluation of the seeded values. Input nodes get the supplied value only if unresolved. Old values are kept, and each new value is what its node computes. The end state is a fixpoint, and resolved values still agree with their kinds. If every input is resolved or supplied, every node ends up resolved |
| `ComputationGraph.Builder.CheckConstraints` | src/lib.rs:43-47 | true exactly when every recorded pair has both nodes resolved to equal values; with no constraints it is true |
| `Graph.FixpointIsSettle` | src/lib.rs:38-41 | values that keep the seeded ones, justify every new one and admit no further step equal the one-pass reference evaluation. So the fill's result does not depend on its visiting order (determinism) |
| `Graph.SettleIsFixpoint` | src/lib.rs:38-41 | the reference evaluation keeps the seeded values. It computes every new value from its parents and is a fixpoint |
| `Graph.FillKeepsAgreement` | src/lib.rs:38-41 | after a fill every resolved non-input node holds what its kind computes, and every constant still holds its constant, whatever the inputs |
| `Graph.FillResolvesAll` | src/lib.rs:38-39 | "fills in all the nodes": when every input node is resolved or supplied, every node is resolved after the fill |
| `Graph.FilledNodeHoldsResult` | src/lib.rs:23-30 | in filled values, a node with resolved parents is resolved. An add node holds the wrapping sum, a mul node the wrapping product, and a hint node its function of the dependency values in order |
| `Graph.FillIdempotent` | src/lib.rs:38-41 | filling an already filled graph again with the same inputs changes no value |
| `Graph.SettleIdempotent` | src/lib.rs:38-41 | evaluating an already evaluated graph changes nothing |
| `Graph.FillKeepsSatisfied` | src/lib.rs:43-46 | a constraint that holds before a fill still holds after it (values are written once) |
| `Graph.SeedWritesOnlyInputs` | src/lib.rs:38-39 | supplying inputs keeps every resolved value. It writes only input nodes that are still unresolved, and each gets its supplied entry |
| `Scenarios.ISqrt` | tests/computation_graph_tests.rs:48 | the square-root hint: the largest r with r * r <= n (and r <= n, so it fits in a u32) |
| `Scenarios.Quadratic` | tests/computation_graph_tests.rs:9-20 | x^2 + x + 5 with x = 3 (a single input entry for five nodes) resolves y to 17, and the check passes |
| `Scenarios.DivisionHint` | tests/computation_graph_tests.rs:23-38 | with a = 7 the hint b / 8 gives c = 1, c * 8 = 8 = a + 1, and the check is true |
| `Scenarios.SquareRootHint` | tests/computation_graph_tests.rs:41-55 | with x = 9 the square-root hint gives 4, 4 * 4 = 16 = x + 7, and the check is true |
| `Scenarios.ConstantOnly` | tests/computation_graph_tests.rs:58-66 | a constant still holds 5 after a fill with all-`None` inputs; with no constraints the check is true |
| `Scenarios.ZeroInputs` | tests/computation_graph_tests.rs:69-80 | 0 + 0 = 0, with the constraint recorded after the fill and still checked |
| `Scenarios.NonPerfectSquare` | tests/computation_graph_tests.rs:83-92 | the square-root hint of the constant 10 resolves to 3; with no constraint the check passes |
| `Scenarios.MultipleOperations` | tests/computation_graph_tests.rs:95-107 | 2 * 3 and 3 + 3 resolve equal, so the check is true |
| `Scenarios.UnresolvedDependency` | src/lib.rs:43-46 | an input that is never supplied leaves its dependant unresolved, and a constraint on it makes the check false rather than failing |

## Left out

- The `f64` square root in the tests' hint closures (`tests/computation_graph_tests.rs:48`,
  `:87`) is modelled by the integer square root `Scenarios.ISqrt`. Floating point is out of
  scope. For every `u32` input the correctly rounded `f64` square root, truncated to `u32`,
  is this floor root, but the model does not show that.
- A hint closure that panics, as `values[0]` does on an empty slice, is not modelled: hint
  functions are total. The scenario hints return 0 for an empty dependency list, which their
  graphs never pass.
- Rust ownership and borrowing (`&Node` against `Node`, moves into `vec![...]`) are not
  modelled. `Node` is a copyable id.
- The in-crate test module at `src/lib.rs:56-119` is not modelled. It targets an older stub
  API (`Builder::hint()` with no arguments, `fill_nodes(vec![x, y])`) and asserts nothing.
  The model follows the API of the integration tests. It does not follow the stub signatures
  at `src/lib.rs:39` and `:51`.
- Overflow panics are not modelled. The source does not say what `u32` overflow does, and the
  model wraps modulo 2^32 (`bv32`). `Graph.WrappingAdd` and `Graph.WrappingMul` carry no
  contract relating them to integer arithmetic: a `bv32` operation is by definition arithmetic
  modulo 2^32, and proving it against `int` costs the solver too much.
- An `InvalidReference` error for ids from another graph is not modelled. The Rust methods
  return `Node`, not a `Result`, and handles come only from the same builder, so valid ids are
  a precondition.
- Detailed check failures (which constraint failed, and which side was unresolved) are not
  modelled. `check_constraints` returns `bool` in the source, and so does the model.
- A second `fill_nodes` does not overwrite an input node that an earlier fill resolved.
  Values are written once. Re-supplying a different value for such a node is ignored.
