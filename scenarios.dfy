/**
 * The integration scenarios of the builder, proved from its contracts. Each
 * scenario is a method that builds a graph, fills it and checks its
 * constraints, and whose postcondition states the outcome the scenario
 * expects; building the graph and reading values off the filled graph are
 * separate members so that each proof stays small.
 */
module Scenarios {
  import opened Wrappers
  import opened Graph
  import opened ComputationGraph

  /** The largest s >= r with s * s <= n, given r * r <= n. */
  function ISqrtFrom(n: nat, r: nat): (s: nat)
    requires r * r <= n
    ensures s * s <= n < (s + 1) * (s + 1)
    ensures s <= n
    decreases n - r
  {
    if (r + 1) * (r + 1) > n then
      assert r <= r * r;
      r
    else
      assert r + 1 <= (r + 1) * (r + 1);
      ISqrtFrom(n, r + 1)
  }

  /** The integer square root: the largest r with r * r <= n. */
  function ISqrt(n: nat): (r: nat)
    ensures r * r <= n < (r + 1) * (r + 1)
    ensures r <= n
  {
    ISqrtFrom(n, 0)
  }

  /** The division hint: the first dependency's value divided by 8, unsigned. */
  function DivideByEight(vals: seq<Word>): Word
  {
    if |vals| > 0 then vals[0] / 8 else 0
  }

  /** The square-root hint: the integer square root of the first dependency's value. */
  function SquareRoot(vals: seq<Word>): Word
  {
    if |vals| > 0 then ISqrt(vals[0] as nat) as Word else 0
  }

  // ---------------------------------------------------------------------------
  // f(x) = x^2 + x + 5

  method BuildQuadratic() returns (b: Builder, y: Node)
    ensures fresh(b) && b.Valid() && y == 4
    ensures b.kinds == [Input, Kind.Mul(0, 0), Kind.Add(1, 0), Kind.Constant(5), Kind.Add(2, 3)]
    ensures b.values == [None, None, None, Some(5), None]
    ensures b.constraints == []
  {
    b := new Builder();
    var x := b.Init();
    var xSquared := b.Mul(x, x);
    var xSquaredPlusX := b.Add(xSquared, x);
    var five := b.Constant(5);
    y := b.Add(xSquaredPlusX, five);
  }

  /** The values of the filled quadratic graph, read off its kinds. */
  lemma QuadraticValues(ks: seq<Kind>, vs: seq<Option<Word>>)
    requires ks == [Input, Kind.Mul(0, 0), Kind.Add(1, 0), Kind.Constant(5), Kind.Add(2, 3)]
    requires Agrees(ks, vs) && vs[0] == Some(3) && forall i :: 0 <= i < |vs| ==> vs[i].Some?
    ensures vs[4] == Some(17)
  {
  }

  /** x = 3: every node resolves and y = 17. */
  method Quadratic() returns (y: Option<Word>, ok: bool)
    ensures y == Some(17) && ok
  {
    var b, yNode := BuildQuadratic();
    b.FillNodes([Some(3)]);
    QuadraticValues(b.kinds, b.values);
    y := b.values[yNode];
    ok := b.CheckConstraints();
  }

  // ---------------------------------------------------------------------------
  // f(a) = (a + 1) / 8

  method BuildDivision() returns (b: Builder, c: Node)
    ensures fresh(b) && b.Valid() && c == 3
    ensures b.kinds == [Input, Kind.Constant(1), Kind.Add(0, 1), Kind.Hint(DivideByEight, [2]),
                        Kind.Constant(8), Kind.Mul(3, 4)]
    ensures b.values == [None, Some(1), None, None, Some(8), None]
    ensures b.constraints == [Equal(2, 5)]
  {
    b := new Builder();
    var a := b.Init();
    var one := b.Constant(1);
    var aPlusOne := b.Add(a, one);
    c := b.Hint(DivideByEight, [aPlusOne]);
    var eight := b.Constant(8);
    var cTimes8 := b.Mul(c, eight);
    b.AssertEqual(aPlusOne, cTimes8);
  }

  /** The values of the filled division graph, read off its kinds. */
  lemma DivisionValues(ks: seq<Kind>, vs: seq<Option<Word>>)
    requires ks == [Input, Kind.Constant(1), Kind.Add(0, 1), Kind.Hint(DivideByEight, [2]),
                    Kind.Constant(8), Kind.Mul(3, 4)]
    requires Agrees(ks, vs) && vs[0] == Some(7) && forall i :: 0 <= i < |vs| ==> vs[i].Some?
    ensures vs[2] == Some(8) && vs[3] == Some(1) && vs[5] == Some(8)
  {
  }

  /** a = 7: the hint gives c = 1, and the constraint c * 8 == a + 1 holds. */
  method DivisionHint() returns (c: Option<Word>, ok: bool)
    ensures c == Some(1) && ok
  {
    var b, cNode := BuildDivision();
    b.FillNodes([Some(7)]);
    DivisionValues(b.kinds, b.values);
    c := b.values[cNode];
    ok := b.CheckConstraints();
  }

  // ---------------------------------------------------------------------------
  // f(x) = sqrt(x + 7)

  method BuildSquareRoot() returns (b: Builder, root: Node)
    ensures fresh(b) && b.Valid() && root == 3
    ensures b.kinds == [Input, Kind.Constant(7), Kind.Add(0, 1), Kind.Hint(SquareRoot, [2]), Kind.Mul(3, 3)]
    ensures b.values == [None, Some(7), None, None, None]
    ensures b.constraints == [Equal(4, 2)]
  {
    b := new Builder();
    var x := b.Init();
    var seven := b.Constant(7);
    var xPlus7 := b.Add(x, seven);
    root := b.Hint(SquareRoot, [xPlus7]);
    var square := b.Mul(root, root);
    b.AssertEqual(square, xPlus7);
  }

  /** The values of the filled square-root graph, read off its kinds. */
  lemma SquareRootValues(ks: seq<Kind>, vs: seq<Option<Word>>)
    requires ks == [Input, Kind.Constant(7), Kind.Add(0, 1), Kind.Hint(SquareRoot, [2]), Kind.Mul(3, 3)]
    requires Agrees(ks, vs) && vs[0] == Some(9) && forall i :: 0 <= i < |vs| ==> vs[i].Some?
    ensures vs[2] == Some(16) && vs[3] == Some(4) && vs[4] == Some(16)
  {
  }

  /** x = 9: the hint gives 4, and the constraint 4 * 4 == 9 + 7 holds. */
  method SquareRootHint() returns (root: Option<Word>, ok: bool)
    ensures root == Some(4) && ok
  {
    var b, rootNode := BuildSquareRoot();
    b.FillNodes([Some(9)]);
    SquareRootValues(b.kinds, b.values);
    root := b.values[rootNode];
    ok := b.CheckConstraints();
  }

  // ---------------------------------------------------------------------------
  // Edge cases

  /** A lone constant keeps its value through a fill with no inputs. */
  method ConstantOnly() returns (five: Option<Word>, ok: bool)
    ensures five == Some(5) && ok
  {
    var b := new Builder();
    var fiveNode := b.Constant(5);
    b.FillNodes([None]);
    five := b.values[fiveNode];
    ok := b.CheckConstraints();
  }

  /** 0 + 0 == 0, with the constraint recorded after the fill. */
  method ZeroInputs() returns (ok: bool)
    ensures ok
  {
    var b := new Builder();
    var zeroA := b.Constant(0);
    var zeroB := b.Constant(0);
    var sum := b.Add(zeroA, zeroB);
    b.FillNodes([None, None]);
    assert b.values[sum] == Compute(b.kinds[sum], b.values);
    b.AssertEqual(sum, zeroA);
    ok := b.CheckConstraints();
  }

  /** The square root of 10 is hinted as 3; with no constraint recorded, the check passes. */
  method NonPerfectSquare() returns (root: Option<Word>, ok: bool)
    ensures root == Some(3) && ok
  {
    var b := new Builder();
    var x := b.Constant(10);
    var rootNode := b.Hint(SquareRoot, [x]);
    b.FillNodes([None]);
    assert b.values[rootNode] == Compute(b.kinds[rootNode], b.values);
    assert ValuesOf([x], b.values) == [10];
    assert ISqrt(10) == 3;
    root := b.values[rootNode];
    ok := b.CheckConstraints();
  }

  method BuildMultipleOperations() returns (b: Builder)
    ensures fresh(b) && b.Valid()
    ensures b.kinds == [Kind.Constant(2), Kind.Constant(3), Kind.Mul(0, 1), Kind.Add(1, 1)]
    ensures b.constraints == [Equal(2, 3)]
  {
    b := new Builder();
    var two := b.Constant(2);
    var three := b.Constant(3);
    var six := b.Mul(two, three);
    var sixAlt := b.Add(three, three);
    b.AssertEqual(six, sixAlt);
  }

  /** 2 * 3 == 3 + 3. */
  method MultipleOperations() returns (ok: bool)
    ensures ok
  {
    var b := BuildMultipleOperations();
    b.FillNodes([None, None]);
    assert b.values[2] == Compute(b.kinds[2], b.values);
    assert b.values[3] == Compute(b.kinds[3], b.values);
    ok := b.CheckConstraints();
  }

  /** An input that is never supplied leaves its dependants unresolved, so a constraint on them fails. */
  method UnresolvedDependency() returns (sum: Option<Word>, ok: bool)
    ensures sum == None && !ok
  {
    var b := new Builder();
    var x := b.Init();
    var one := b.Constant(1);
    var sumNode := b.Add(x, one);
    b.AssertEqual(sumNode, one);
    b.FillNodes([]);
    assert b.values[x] == None;
    assert Compute(b.kinds[sumNode], b.values) == None;
    assert !Satisfied(b.values, b.constraints[0]);
    sum := b.values[sumNode];
    ok := b.CheckConstraints();
  }
}
